/**
 Folding a packet log into sessions: packets of one conversation are added up.
 */
module Sessions {
  import opened Common

  /** A log record; a session is the same record with totals for its byte counts. */
  datatype Record = Record(
    mac: seq<byte>, dlc: nat, ipClnt: word, ipHost: word, ipProto: nat,
    portClnt: nat, portHost: nat, toCli: nat, toHost: nat)

  /** What makes two packets one session; the client's port does not. */
  datatype Key = Key(mac: seq<byte>, dlc: nat, ipClnt: word, ipHost: word, ipProto: nat, portHost: nat)

  const WORD := 0x1_0000_0000

  function KeyOf(r: Record): Key {
    Key(r.mac, r.dlc, r.ipClnt, r.ipHost, r.ipProto, r.portHost)
  }

  /** The fields compared, in the order in which the program compares them. */
  predicate SameSession(p: Record, s: Record)
    ensures SameSession(p, s) <==> KeyOf(p) == KeyOf(s)
  {
    p.mac == s.mac && p.ipHost == s.ipHost && p.ipClnt == s.ipClnt
    && p.portHost == s.portHost && p.ipProto == s.ipProto && p.dlc == s.dlc
  }

  /** The session with a packet's bytes added, in 32-bit arithmetic. */
  function Joined(s: Record, p: Record): Record {
    s.(toCli := (s.toCli + p.toCli) % WORD, toHost := (s.toHost + p.toHost) % WORD)
  }

  /** Position of the packet's session from `i` on, or the end. */
  function Slot(sessions: seq<Record>, p: Record, i: nat): (k: nat)
    requires i <= |sessions|
    ensures i <= k <= |sessions|
    ensures k < |sessions| ==> SameSession(p, sessions[k])
    ensures forall j | i <= j < k :: !SameSession(p, sessions[j])
  {
    FirstPlace(sessions, (s: Record) => SameSession(p, s), i)
  }

  function Added(sessions: seq<Record>, p: Record): (sessions': seq<Record>)
    ensures |sessions| <= |sessions'| <= |sessions| + 1
  {
    var k := Slot(sessions, p, 0);
    if k < |sessions| then sessions[k := Joined(sessions[k], p)] else sessions + [p]
  }

  /** The sessions of a log: never more than its packets. */
  function Folded(log: seq<Record>): (sessions: seq<Record>)
    ensures |sessions| <= |log|
  {
    if log == [] then [] else Added(Folded(log[..|log| - 1]), log[|log| - 1])
  }

  /** The two loops that fold `captured` into the session buffer. */
  method Fold(captured: array<Record>, count: nat, sessions: array<Record>) returns (n: nat)
    requires count <= captured.Length && count <= sessions.Length && captured != sessions
    modifies sessions
    ensures n <= count && sessions[..n] == Folded(captured[..count])
  {
    hide SameSession, Joined, Slot, Added;
    n := 0;
    for c := 0 to count
      invariant n <= c && sessions[..n] == Folded(captured[..c])
    {
      var i := 0;
      ghost var was := sessions[..n];
      while i < n && !SameSession(captured[c], sessions[i])
        invariant i <= n && forall j | 0 <= j < i :: !SameSession(captured[c], was[j])
      {
        i := i + 1;
      }
      AddedAt(was, captured[c], i);
      if i < n {
        sessions[i] := Joined(sessions[i], captured[c]);
        assert sessions[..n] == was[i := Joined(was[i], captured[c])];
      } else {
        sessions[n] := captured[c];
        n := n + 1;
        assert sessions[..n] == was + [captured[c]];
      }
      assert captured[..c + 1][..c] == captured[..c];
    }
  }

  lemma AddedAt(sessions: seq<Record>, p: Record, i: nat)
    requires i <= |sessions| && forall j | 0 <= j < i :: !SameSession(p, sessions[j])
    requires i < |sessions| ==> SameSession(p, sessions[i])
    ensures Added(sessions, p) ==
      if i < |sessions| then sessions[i := Joined(sessions[i], p)] else sessions + [p]
  {
    hide SameSession;
    assert Slot(sessions, p, 0) == i;
  }

  // -------------------------------------------------------- what folding keeps

  ghost predicate DistinctKeys(sessions: seq<Record>) {
    forall i, j | 0 <= i < j < |sessions| :: KeyOf(sessions[i]) != KeyOf(sessions[j])
  }

  /** Bytes to the client, and to the host, over all packets of a key. */
  function ToCli(log: seq<Record>, key: Key): nat {
    if log == [] then 0
    else ToCli(log[..|log| - 1], key) + (if KeyOf(log[|log| - 1]) == key then log[|log| - 1].toCli else 0)
  }

  function ToHost(log: seq<Record>, key: Key): nat {
    if log == [] then 0
    else ToHost(log[..|log| - 1], key) + (if KeyOf(log[|log| - 1]) == key then log[|log| - 1].toHost else 0)
  }

  ghost predicate Words(log: seq<Record>) {
    forall i | 0 <= i < |log| :: log[i].toCli < WORD && log[i].toHost < WORD
  }

  ghost predicate HasKey(log: seq<Record>, key: Key) {
    exists i :: 0 <= i < |log| && KeyOf(log[i]) == key
  }

  /** A key no packet has adds up to nothing. */
  lemma {:induction false} NoKeyNoBytes(log: seq<Record>, key: Key)
    requires !HasKey(log, key)
    ensures ToCli(log, key) == 0 && ToHost(log, key) == 0
  {
    if log != [] {
      assert forall i | 0 <= i < |log| - 1 :: log[..|log| - 1][i] == log[i];
      NoKeyNoBytes(log[..|log| - 1], key);
    }
  }

  /** Each session holds the bytes of all the packets with its key. */
  ghost predicate Totals(log: seq<Record>, sessions: seq<Record>) {
    forall i | 0 <= i < |sessions| ::
      && sessions[i].toCli == ToCli(log, KeyOf(sessions[i])) % WORD
      && sessions[i].toHost == ToHost(log, KeyOf(sessions[i])) % WORD
  }

  ghost predicate SameKeys(log: seq<Record>, sessions: seq<Record>) {
    forall key :: HasKey(log, key) <==> HasKey(sessions, key)
  }

  lemma AddMod(a: nat, b: nat)
    ensures (a % WORD + b) % WORD == (a + b) % WORD
  {
  }

  lemma AddedKeys(log: seq<Record>, sessions: seq<Record>, p: Record)
    requires DistinctKeys(sessions) && SameKeys(log, sessions)
    ensures DistinctKeys(Added(sessions, p)) && SameKeys(log + [p], Added(sessions, p))
  {
    var k, sessions' := Slot(sessions, p, 0), Added(sessions, p);
    forall key ensures HasKey(log + [p], key) <==> HasKey(sessions', key) {
      if HasKey(log + [p], key) {
        if key == KeyOf(p) {
          assert KeyOf(sessions'[k]) == key;
        } else {
          var i :| 0 <= i < |log + [p]| && KeyOf((log + [p])[i]) == key;
          assert KeyOf(log[i]) == key;
          assert HasKey(log, key) && HasKey(sessions, key);
          var j :| 0 <= j < |sessions| && KeyOf(sessions[j]) == key;
          assert KeyOf(sessions'[j]) == key;
        }
      }
      if HasKey(sessions', key) {
        var j :| 0 <= j < |sessions'| && KeyOf(sessions'[j]) == key;
        if j == k {
          assert (log + [p])[|log|] == p;
        } else {
          assert KeyOf(sessions[j]) == key;
          assert HasKey(sessions, key) && HasKey(log, key);
          var i :| 0 <= i < |log| && KeyOf(log[i]) == key;
          assert (log + [p])[i] == log[i];
        }
      }
    }
  }

  lemma AddedTotals(log: seq<Record>, sessions: seq<Record>, p: Record)
    requires DistinctKeys(sessions) && SameKeys(log, sessions) && Totals(log, sessions)
    requires p.toCli < WORD && p.toHost < WORD
    ensures Totals(log + [p], Added(sessions, p))
  {
    var k, sessions' := Slot(sessions, p, 0), Added(sessions, p);
    assert (log + [p])[..|log|] == log;
    forall i | 0 <= i < |sessions'|
      ensures sessions'[i].toCli == ToCli(log + [p], KeyOf(sessions'[i])) % WORD
      ensures sessions'[i].toHost == ToHost(log + [p], KeyOf(sessions'[i])) % WORD
    {
      var key := KeyOf(sessions'[i]);
      if i == k {
        if k == |sessions| {
          assert !HasKey(sessions, key);
          NoKeyNoBytes(log, key);
        } else {
          AddMod(ToCli(log, key), p.toCli);
          AddMod(ToHost(log, key), p.toHost);
        }
      } else {
        assert key != KeyOf(p);
      }
    }
  }

  /**
   Folding conserves traffic: one session for each key that occurs, holding the sum of its
   packets' bytes in 32-bit arithmetic.
   */
  lemma {:induction false} FoldConserves(log: seq<Record>)
    requires Words(log)
    ensures DistinctKeys(Folded(log)) && SameKeys(log, Folded(log)) && Totals(log, Folded(log))
  {
    if log != [] {
      var rest, p := log[..|log| - 1], log[|log| - 1];
      assert rest + [p] == log;
      FoldConserves(rest);
      AddedKeys(rest, Folded(rest), p);
      AddedTotals(rest, Folded(rest), p);
    }
  }

  /** The fields that make packets of one session: all but the client's port and the byte counts. */
  predicate SameFields(p: Record, s: Record) {
    && p.mac == s.mac && p.dlc == s.dlc && p.ipClnt == s.ipClnt && p.ipHost == s.ipHost
    && p.ipProto == s.ipProto && p.portHost == s.portHost
  }

  /** One session for the packets that agree in those fields, and no other. */
  lemma SessionsByFields(log: seq<Record>)
    requires Words(log)
    ensures var sessions := Folded(log);
      && (forall p | p in log :: exists s :: s in sessions && SameFields(p, s))
      && (forall s | s in sessions :: exists p :: p in log && SameFields(p, s))
      && forall i, j | 0 <= i < j < |sessions| :: !SameFields(sessions[i], sessions[j])
  {
    hide Folded, Words, Totals;
    FoldConserves(log);
    var sessions := Folded(log);
    forall p | p in log ensures exists s :: s in sessions && SameFields(p, s) {
      assert HasKey(log, KeyOf(p)) && HasKey(sessions, KeyOf(p));
      var i :| 0 <= i < |sessions| && KeyOf(sessions[i]) == KeyOf(p);
      assert sessions[i] in sessions && SameFields(p, sessions[i]);
    }
    forall s | s in sessions ensures exists p :: p in log && SameFields(p, s) {
      assert HasKey(sessions, KeyOf(s)) && HasKey(log, KeyOf(s));
      var i :| 0 <= i < |log| && KeyOf(log[i]) == KeyOf(s);
      assert log[i] in log && SameFields(log[i], s);
    }
    assert forall i, j | 0 <= i < j < |sessions| :: KeyOf(sessions[i]) != KeyOf(sessions[j]);
  }

  /** No total wraps if packets are at most `frame` bytes and there are few enough of them. */
  lemma {:induction false} SumsBounded(log: seq<Record>, key: Key, frame: nat)
    requires forall i | 0 <= i < |log| :: log[i].toCli <= frame && log[i].toHost <= frame
    ensures ToCli(log, key) <= |log| * frame && ToHost(log, key) <= |log| * frame
  {
    if log != [] {
      SumsBounded(log[..|log| - 1], key, frame);
      assert (|log| - 1) * frame + frame == |log| * frame;
    }
  }

  /** Then the totals are exact. */
  lemma FoldExact(log: seq<Record>, frame: nat, i: nat)
    requires forall i | 0 <= i < |log| :: log[i].toCli <= frame && log[i].toHost <= frame
    requires |log| * frame < WORD && i < |Folded(log)|
    ensures var s := Folded(log)[i];
      s.toCli == ToCli(log, KeyOf(s)) && s.toHost == ToHost(log, KeyOf(s))
  {
    hide ToCli, ToHost, Folded, DistinctKeys, SameKeys;
    FrameFits(|log|, frame);
    assert Words(log);
    FoldConserves(log);
    var key := KeyOf(Folded(log)[i]);
    SumsBounded(log, key, frame);
  }

  lemma FrameFits(n: nat, frame: nat)
    requires 1 <= n && n * frame < WORD
    ensures frame < WORD
  {
    assert frame <= n * frame;
  }
}
