/**
 Names of the master database: matched against the name in a query, and printed into an
 answer.  A stored name may end in a mark that stands for the name of its zone.
 */
module MasterNames {
  import opened Common
  import opened Names

  /** A name of the database: absolute, or relative to its zone. */
  datatype Stored = Stored(labels: seq<Label>, relative: bool)

  /** Offset of the question in a message. */
  const QUESTION: nat := 12

  /** Labels as a host or a zone may have them: no octet is taken for an end or a mark. */
  predicate Good(labels: seq<Label>) {
    Proper(labels) && forall l | l in labels :: Clean(l)
  }

  predicate Clean(l: Label) {
    0 !in l && MARK !in l
  }

  function Octets(n: Stored): seq<byte>
    requires Proper(n.labels)
  {
    Wire(n.labels) + if n.relative then [MARK, 0] else [0]
  }

  function Absolute(labels: seq<Label>): seq<byte>
    requires Proper(labels)
  {
    Wire(labels) + [0]
  }

  /** The full name. */
  function Expansion(n: Stored, zone: seq<Label>): seq<Label> {
    if n.relative then n.labels + zone else n.labels
  }

  /** toupper in the C locale. */
  function Upper(c: byte): (u: byte)
    ensures u == 0 <==> c == 0
  {
    if 97 <= c <= 122 then c - 32 else c
  }

  /** Two octets are taken for the same if they are, or are one letter of ASCII in its two cases. */
  lemma UpperFoldsCase(c: byte, d: byte)
    ensures Upper(c) == Upper(d) <==>
      c == d || ('A' as int <= c <= 'Z' as int && d == c + 32) || ('A' as int <= d <= 'Z' as int && c == d + 32)
  {
  }

  /** Labels are the same but for case, octet by octet. */
  lemma {:induction false} FoldedIsCaseless(l: Label, m: Label)
    ensures Folded(l) == Folded(m) <==> |l| == |m| && forall k | 0 <= k < |l| :: Upper(l[k]) == Upper(m[k])
  {
    assert |Folded(l)| == |l| && |Folded(m)| == |m|;
    if l != [] && m != [] {
      assert Folded(l)[0] == Upper(l[0]) && Folded(l)[1..] == Folded(l[1..]);
      assert Folded(m)[0] == Upper(m[0]) && Folded(m)[1..] == Folded(m[1..]);
      FoldedIsCaseless(l[1..], m[1..]);
      assert forall k | 1 <= k < |l| :: l[k] == l[1..][k - 1];
      assert forall k | 1 <= k < |m| :: m[k] == m[1..][k - 1];
    }
  }

  function Folded(l: Label): (f: Label)
    ensures |f| == |l|
  {
    if l == [] then [] else [Upper(l[0])] + Folded(l[1..])
  }

  function FoldedAll(labels: seq<Label>): (f: seq<Label>)
    ensures |f| == |labels|
  {
    if labels == [] then [] else [Folded(labels[0])] + FoldedAll(labels[1..])
  }

  predicate SameName(a: seq<Label>, b: seq<Label>) {
    FoldedAll(a) == FoldedAll(b)
  }

  // ------------------------------------------------------------------- matching

  /** A string that ends in its zero octet. */
  predicate Closed(s: seq<byte>) {
    s != [] && s[|s| - 1] == 0
  }

  /**
   rcmp_names from offset `at` of the query on: at a mark that the query does not have the
   comparison goes on with the name of the zone.
   */
  function Compare(q: seq<byte>, c: seq<byte>, z: seq<byte>, at: nat, ptr: nat): (bool, nat)
    requires Closed(q) && Closed(c) && Closed(z) && z[0] != MARK
    decreases |q|, c[0] == MARK
  {
    if Upper(q[0]) != Upper(c[0]) then
      if c[0] == MARK then Compare(q, z, z, at, at + QUESTION) else (false, ptr)
    else if q[0] == 0 then (true, ptr)
    else Compare(q[1..], c[1..], z, at + 1, ptr)
  }

  method CompareNames(qname: array<byte>, name: array<byte>, zname: array<byte>, from: nat,
                      ghost ql: nat, ghost nl: nat, ghost zl: nat)
    returns (matched: bool, zonePtr: nat)
    requires from + ql <= qname.Length && nl <= name.Length && zl <= zname.Length
    requires Closed(qname[from..from + ql]) && Closed(name[..nl]) && Closed(zname[..zl]) && zname[0] != MARK
    ensures (matched, zonePtr) == Compare(qname[from..from + ql], name[..nl], zname[..zl], 0, 0)
  {
    ghost var z := zname[..zl];
    ghost var all := Compare(qname[from..from + ql], name[..nl], z, 0, 0);
    var qi, ni, cstr := 0, 0, name;
    ghost var cl := nl;
    zonePtr := 0;
    assert name[0..nl] == name[..nl];
    while true
      invariant qi < ql && ni < cl <= cstr.Length
      invariant Closed(qname[from + qi..from + ql]) && Closed(cstr[ni..cl])
      invariant Compare(qname[from + qi..from + ql], cstr[ni..cl], z, qi, zonePtr) == all
      decreases ql - qi, cstr[ni] == MARK
    {
      ghost var q, c := qname[from + qi..from + ql], cstr[ni..cl];
      assert q[0] == qname[from + qi] && c[0] == cstr[ni];
      if Upper(qname[from + qi]) != Upper(cstr[ni]) {
        if cstr[ni] == MARK {
          zonePtr := qi + 12;
          ni, cstr, cl := 0, zname, zl;
          assert zname[0..zl] == z;
          continue;
        } else {
          return false, zonePtr;
        }
      }
      if qname[from + qi] == 0 {
        return true, zonePtr;
      }
      assert q[1..] == qname[from + qi + 1..from + ql] && c[1..] == cstr[ni + 1..cl];
      ni, qi := ni + 1, qi + 1;
    }
  }

  // ------------------------------------------------- octet for octet, any stored name

  /** Two strings are the same, but for case, up to their ends. */
  predicate Same(q: seq<byte>, c: seq<byte>)
    requires Closed(q) && Closed(c)
  {
    Upper(q[0]) == Upper(c[0]) && (q[0] == 0 || Same(q[1..], c[1..]))
  }

  /** How many octets agree before one string ends or the two differ. */
  function Agree(q: seq<byte>, c: seq<byte>): (k: nat)
    requires Closed(q) && Closed(c)
    ensures k < |q| && k < |c| && Closed(q[k..]) && Closed(c[k..])
    ensures forall j | 0 <= j < k :: Upper(q[j]) == Upper(c[j]) && q[j] != 0
    ensures q[k] == 0 || Upper(q[k]) != Upper(c[k])
  {
    if q[0] == 0 || Upper(q[0]) != Upper(c[0]) then 0
    else
      var k := Agree(q[1..], c[1..]);
      assert q[1..][k..] == q[k + 1..] && c[1..][k..] == c[k + 1..];
      k + 1
  }

  /** The octets before `k` agree and do not end, the stored name has a mark there and the query none. */
  predicate Breaks(q: seq<byte>, c: seq<byte>, k: nat) {
    && k < |q| && k < |c| && c[k] == MARK && q[k] != MARK
    && forall j | 0 <= j < k :: Upper(q[j]) == Upper(c[j]) && q[j] != 0
  }

  lemma {:induction false} AgreeIs(q: seq<byte>, c: seq<byte>, k: nat)
    requires Closed(q) && Closed(c) && k < |q| && k < |c|
    requires forall j | 0 <= j < k :: Upper(q[j]) == Upper(c[j]) && q[j] != 0
    requires q[k] == 0 || Upper(q[k]) != Upper(c[k])
    ensures Agree(q, c) == k
  {
    var m := Agree(q, c);
    assert !(m < k) && !(k < m);
  }

  lemma {:induction false} SameIsAgree(q: seq<byte>, c: seq<byte>)
    requires Closed(q) && Closed(c)
    ensures Same(q, c) <==> q[Agree(q, c)] == c[Agree(q, c)] == 0
    decreases |q|
  {
    if q[0] != 0 && Upper(q[0]) == Upper(c[0]) { SameIsAgree(q[1..], c[1..]); }
  }

  /** The comparison runs to the first place of disagreement and is decided there. */
  lemma {:induction false} CompareToBreak(q: seq<byte>, c: seq<byte>, z: seq<byte>, at: nat, ptr: nat)
    requires Closed(q) && Closed(c) && Closed(z) && z[0] != MARK
    ensures var k := Agree(q, c);
      Compare(q, c, z, at, ptr) ==
        if q[k] == c[k] == 0 then (true, ptr)
        else if c[k] == MARK then Compare(q[k..], z, z, at + k, at + k + QUESTION)
        else (false, ptr)
    decreases |q|
  {
    hide Compare, Agree;
    CompareOnce(q, c, z, at, ptr);
    if q[0] != 0 && Upper(q[0]) == Upper(c[0]) {
      CompareToBreak(q[1..], c[1..], z, at + 1, ptr);
    }
  }

  lemma CompareOnce(q: seq<byte>, c: seq<byte>, z: seq<byte>, at: nat, ptr: nat)
    requires Closed(q) && Closed(c) && Closed(z) && z[0] != MARK
    ensures if q[0] != 0 && Upper(q[0]) == Upper(c[0]) then
        Closed(q[1..]) && Closed(c[1..]) && Compare(q, c, z, at, ptr) == Compare(q[1..], c[1..], z, at + 1, ptr)
        && var k := Agree(q[1..], c[1..]);
          Agree(q, c) == k + 1 && q[k + 1..] == q[1..][k..] && q[k + 1] == q[1..][k] && c[k + 1] == c[1..][k]
      else
        Agree(q, c) == 0 && q[0..] == q
        && Compare(q, c, z, at, ptr) ==
          if q[0] == c[0] == 0 then (true, ptr)
          else if c[0] == MARK then Compare(q, z, z, at, at + QUESTION)
          else (false, ptr)
  {
  }

  /**
   For any query, any stored name and any zone without a mark: the comparison succeeds if and
   only if the stored octets are the query's, or they agree as far as a mark that the query
   does not have and the rest of the query is the zone.
   */
  lemma CompareExact(q: seq<byte>, c: seq<byte>, z: seq<byte>)
    requires Closed(q) && Closed(c) && Closed(z) && MARK !in z
    ensures forall k: nat | Breaks(q, c, k) :: Closed(q[k..])
    ensures var r := Compare(q, c, z, 0, 0);
      && (r.0 <==> Same(q, c) || exists k: nat :: Breaks(q, c, k) && Same(q[k..], z))
      && (r.0 ==> if Same(q, c) then r.1 == 0
                  else QUESTION <= r.1 && Breaks(q, c, r.1 - QUESTION) && Same(q[r.1 - QUESTION..], z))
  {
    hide Compare, Same;
    var k := Agree(q, c);
    SameIsAgree(q, c);
    CompareToBreak(q, c, z, 0, 0);
    ClosedRest(q);
    forall m: nat | Breaks(q, c, m) ensures m == k {
      UpperOfMark(q[m]);
      AgreeIs(q, c, m);
    }
    if c[k] == MARK {
      UpperOfMark(q[k]);
      assert Breaks(q, c, k);
      ZoneOnly(q[k..], z, k);
    }
  }

  lemma ClosedRest(q: seq<byte>)
    requires Closed(q)
    ensures forall k | 0 <= k < |q| :: Closed(q[k..])
  {
  }

  lemma UpperOfMark(x: byte)
    ensures Upper(x) == Upper(MARK) <==> x == MARK
  {
  }

  lemma ZoneOnly(q: seq<byte>, z: seq<byte>, at: nat)
    requires Closed(q) && Closed(z) && MARK !in z
    ensures Compare(q, z, z, at, at + QUESTION) == (Same(q, z), at + QUESTION)
  {
    hide Compare, Same;
    SameIsAgree(q, z);
    CompareToBreak(q, z, z, at, at + QUESTION);
    assert z[Agree(q, z)] in z;
  }

  // ------------------------------------------------------------- label for label

  /** Labels as they come from a string of the configuration. */
  predicate Text(labels: seq<Label>) {
    Proper(labels) && forall l | l in labels :: 0 !in l
  }

  lemma TextParts(labels: seq<Label>)
    requires Text(labels) && labels != []
    ensures 0 !in labels[0] && Text(labels[1..])
    ensures 1 <= |labels[0]| <= 63
  {
    assert labels[0] in labels;
    assert forall l | l in labels[1..] :: l in labels;
  }

  lemma GoodIsText(labels: seq<Label>)
    requires Good(labels)
    ensures Text(labels)
  {
  }

  lemma {:induction false} WireClean(labels: seq<Label>)
    requires Good(labels)
    ensures 0 !in Wire(labels) && MARK !in Wire(labels)
    decreases |labels|
  {
    if labels != [] {
      GoodParts(labels);
      WireClean(labels[1..]);
    }
  }

  lemma GoodParts(labels: seq<Label>)
    requires Good(labels) && labels != []
    ensures Clean(labels[0]) && Good(labels[1..])
    ensures 1 <= |labels[0]| <= 63
  {
    assert labels[0] in labels;
    assert forall l | l in labels[1..] :: l in labels;
  }

  /** The first label, what follows it, and the end. */
  lemma WireFirst(labels: seq<Label>, end: seq<byte>)
    requires Proper(labels) && labels != []
    ensures 1 <= |labels[0]| <= 63 && Proper(labels[1..])
    ensures Wire(labels) + end == [|labels[0]| as byte] + (labels[0] + (Wire(labels[1..]) + end))
    ensures |Wire(labels)| == 1 + |labels[0]| + |Wire(labels[1..])|
  {
    ProperParts(labels);
    WireSplits(labels);
    Regrouped([|labels[0]| as byte], labels[0], Wire(labels[1..]), end);
  }

  lemma Regrouped(a: seq<byte>, b: seq<byte>, c: seq<byte>, d: seq<byte>)
    ensures a + b + c + d == a + (b + (c + d))
  {
  }

  lemma ClosedMore(l: seq<byte>, s: seq<byte>)
    requires Closed(s)
    ensures Closed(l + s)
  {
  }

  lemma UpperOfLength(n: byte, m: byte)
    requires m <= 63
    ensures Upper(n) == Upper(m) <==> n == m
  {
  }

  /** One octet in front of both. */
  lemma AgreeOne(x: byte, y: byte, q: seq<byte>, c: seq<byte>)
    requires Closed(q) && Closed(c)
    ensures Closed([x] + q) && Closed([y] + c)
    ensures Agree([x] + q, [y] + c) == if x == 0 || Upper(x) != Upper(y) then 0 else 1 + Agree(q, c)
  {
    assert ([x] + q)[1..] == q && ([y] + c)[1..] == c;
  }

  lemma FirstOctet(l: Label, s: seq<byte>)
    requires l != []
    ensures l + s == [l[0]] + (l[1..] + s)
  {
  }

  /** One label in front of both. */
  lemma {:induction false} AgreeText(x: Label, y: Label, q: seq<byte>, c: seq<byte>)
    requires |x| == |y| && 0 !in y && Closed(q) && Closed(c)
    ensures Closed(x + q) && Closed(y + c)
    ensures if Folded(x) == Folded(y) then Agree(x + q, y + c) == |x| + Agree(q, c) else Agree(x + q, y + c) < |x|
    decreases |x|
  {
    hide Agree, Closed;
    ClosedMore(x, q);
    ClosedMore(y, c);
    if x == [] {
      assert x + q == q && y + c == c;
    } else {
      assert y[0] in y;
      AgreeText(x[1..], y[1..], q, c);
      FirstOctet(x, q);
      FirstOctet(y, c);
      AgreeOne(x[0], y[0], x[1..] + q, y[1..] + c);
      assert Folded(x)[0] == Upper(x[0]) && Folded(y)[0] == Upper(y[0]);
      assert Folded(x)[1..] == Folded(x[1..]) && Folded(y)[1..] == Folded(y[1..]);
    }
  }

  /** The name begins with these labels, but for case. */
  predicate Begins(a: seq<Label>, b: seq<Label>) {
    b == [] || (a != [] && Folded(a[0]) == Folded(b[0]) && Begins(a[1..], b[1..]))
  }

  /**
   A query and stored labels with something closed behind them agree over all the labels
   exactly if the query begins with them, and then go on behind.
   */
  lemma {:induction false} AgreeLabels(a: seq<Label>, b: seq<Label>, end: seq<byte>)
    requires Proper(a) && Text(b) && Closed(end)
    ensures Closed(Absolute(a)) && Closed(Wire(b) + end)
    ensures if Begins(a, b)
      then |b| <= |a| && Proper(a[|b|..])
           && |Wire(b)| <= |Absolute(a)| && Absolute(a)[|Wire(b)|..] == Absolute(a[|b|..])
           && Agree(Absolute(a), Wire(b) + end) == |Wire(b)| + Agree(Absolute(a[|b|..]), end)
      else Agree(Absolute(a), Wire(b) + end) < |Wire(b)|
    decreases |b|
  {
    hide Agree, Closed, Wire, Folded, Text;
    TextIsProper(b);
    AbsoluteClosed(a);
    ClosedMore(Wire(b), end);
    if b == [] {
      NoWire();
      assert [] + end == end && a[0..] == a;
    } else {
      TextParts(b);
      TextIsProper(b);
      WireFirst(b, end);
      if a == [] {
        AgreeNothing(b, end);
      } else {
        NextLabel(a, b, end);
      }
    }
  }

  lemma TextIsProper(b: seq<Label>)
    requires Text(b)
    ensures Proper(b)
  {
  }

  lemma AgreeNothing(b: seq<Label>, end: seq<byte>)
    requires Proper(b) && b != [] && Closed(Wire(b) + end)
    ensures Closed(Absolute([])) && Agree(Absolute([]), Wire(b) + end) == 0 < |Wire(b)|
  {
    hide Wire;
    NoWire();
    WireFirst(b, end);
  }

  lemma NextLabel(a: seq<Label>, b: seq<Label>, end: seq<byte>)
    requires Proper(a) && a != [] && Text(b) && b != [] && Closed(end)
    requires Closed(Absolute(a)) && Closed(Wire(b) + end)
    ensures if Begins(a, b)
      then |b| <= |a| && Proper(a[|b|..])
           && |Wire(b)| <= |Absolute(a)| && Absolute(a)[|Wire(b)|..] == Absolute(a[|b|..])
           && Agree(Absolute(a), Wire(b) + end) == |Wire(b)| + Agree(Absolute(a[|b|..]), end)
      else Agree(Absolute(a), Wire(b) + end) < |Wire(b)|
    decreases |b|, 0
  {
    hide Agree, Closed, Wire, Folded, Text, Absolute, Begins, Proper;
    TextParts(b);
    TextIsProper(b);
    TextIsProper(b[1..]);
    WireFirst(b, end);
    AbsoluteFirst(a);
    BeginsOne(a, b);
    AgreeLabels(a[1..], b[1..], end);
    AgreeHead(a[0], b[0], Absolute(a[1..]), Wire(b[1..]) + end);
    if Begins(a, b) {
      assert a[1..][|b| - 1..] == a[|b|..];
      NextRest(a, b);
    }
  }

  lemma BeginsOne(a: seq<Label>, b: seq<Label>)
    requires a != [] && b != []
    ensures Begins(a, b) <==> Folded(a[0]) == Folded(b[0]) && Begins(a[1..], b[1..])
    ensures Begins(a, b) ==> |a[0]| == |b[0]|
  {
    FoldedSize(a[0], b[0]);
  }

  lemma AbsoluteFirst(a: seq<Label>)
    requires Proper(a) && a != []
    ensures 1 <= |a[0]| <= 63 && Proper(a[1..])
    ensures Absolute(a) == [|a[0]| as byte] + (a[0] + Absolute(a[1..]))
  {
    hide Wire;
    WireFirst(a, [0]);
  }

  lemma NextRest(a: seq<Label>, b: seq<Label>)
    requires Proper(a) && Proper(b) && a != [] && b != [] && |a[0]| == |b[0]| && |b| <= |a|
    requires Proper(a[1..]) && Proper(b[1..]) && Proper(a[|b|..]) && |Wire(b[1..])| <= |Absolute(a[1..])|
    requires Absolute(a[1..])[|Wire(b[1..])|..] == Absolute(a[|b|..])
    ensures |Wire(b)| == 1 + |b[0]| + |Wire(b[1..])| && |Wire(b)| <= |Absolute(a)|
    ensures Absolute(a)[|Wire(b)|..] == Absolute(a[|b|..])
  {
    hide Wire, Absolute;
    AbsoluteFirst(a);
    WireFirst(b, []);
    DropLabel(a[0], Absolute(a[1..]), |Wire(b[1..])|);
  }

  /** A label and its length in front of both. */
  lemma AgreeHead(x: Label, y: Label, q: seq<byte>, c: seq<byte>)
    requires |x| <= 63 && |y| <= 63 && 0 < |x| && 0 !in y && Closed(q) && Closed(c)
    ensures var s, t := [|x| as byte] + (x + q), [|y| as byte] + (y + c);
      && Closed(s) && Closed(t)
      && if Folded(x) == Folded(y) then Agree(s, t) == 1 + |x| + Agree(q, c) else Agree(s, t) < 1 + |y|
  {
    hide Agree, Closed, Folded;
    ClosedMore(x, q);
    ClosedMore(y, c);
    AgreeOne(|x| as byte, |y| as byte, x + q, y + c);
    UpperOfLength(|x| as byte, |y| as byte);
    FoldedSize(x, y);
    if |x| == |y| { AgreeText(x, y, q, c); }
  }

  lemma DropLabel(x: Label, q: seq<byte>, n: nat)
    requires |x| <= 63 && n <= |q|
    ensures ([|x| as byte] + (x + q))[1 + |x| + n..] == q[n..]
  {
  }

  lemma FoldedSize(x: Label, y: Label)
    ensures Folded(x) == Folded(y) ==> |x| == |y|
  {
    assert |Folded(x)| == |x| && |Folded(y)| == |y|;
  }

  lemma AbsoluteClosed(labels: seq<Label>)
    requires Proper(labels)
    ensures Closed(Absolute(labels)) && (Good(labels) ==> MARK !in Absolute(labels))
    ensures Absolute(labels)[0] == if labels == [] then 0 else |labels[0]|
    ensures Absolute(labels)[0] <= 63
  {
    if Good(labels) { WireClean(labels); }
    if labels != [] { WireFirst(labels, [0]); }
  }

  lemma {:induction false} BeginsAll(a: seq<Label>, b: seq<Label>, rest: seq<Label>)
    ensures SameName(a, b + rest) <==> Begins(a, b) && |b| <= |a| && SameName(a[|b|..], rest)
    decreases |b|
  {
    if b == [] {
      assert b + rest == rest && a[0..] == a;
    } else {
      var full := b + rest;
      assert full[0] == b[0] && full[1..] == b[1..] + rest;
      assert FoldedAll(full)[0] == Folded(b[0]) && FoldedAll(full)[1..] == FoldedAll(full[1..]);
      if a != [] {
        assert FoldedAll(a)[0] == Folded(a[0]) && FoldedAll(a)[1..] == FoldedAll(a[1..]);
        BeginsAll(a[1..], b[1..], rest);
        if |b| <= |a| { assert a[1..][|b| - 1..] == a[|b|..]; }
      }
    }
  }

  lemma NameEnds(a: seq<Label>)
    requires Proper(a)
    ensures Closed(Absolute(a)) && Closed([0]) && Closed([MARK, 0])
    ensures Agree(Absolute(a), [0]) == Agree(Absolute(a), [MARK, 0]) == 0
    ensures Absolute(a)[0] == 0 <==> a == []
    ensures Absolute(a)[0] != MARK
  {
    hide Wire;
    AbsoluteClosed(a);
    AgreeIs(Absolute(a), [0], 0);
    AgreeIs(Absolute(a), [MARK, 0], 0);
  }

  lemma SameEmpty(a: seq<Label>)
    ensures SameName(a, []) <==> a == []
  {
  }

  /** Octets the same but for case are labels the same but for case. */
  lemma SameIsSameName(a: seq<Label>, b: seq<Label>)
    requires Proper(a) && Text(b)
    ensures Closed(Absolute(a)) && Closed(Absolute(b))
    ensures Same(Absolute(a), Absolute(b)) <==> SameName(a, b)
  {
    hide Agree, Same, Wire, FoldedAll, Begins, SameName, Closed;
    NameEnds([]);
    AgreeLabels(a, b, [0]);
    SameIsAgree(Absolute(a), Absolute(b));
    BeginsAll(a, b, []);
    assert b + [] == b;
    if Begins(a, b) {
      NameEnds(a[|b|..]);
      SameEmpty(a[|b|..]);
      assert Absolute(a)[|Wire(b)|] == Absolute(a)[|Wire(b)|..][0];
    } else {
      TextOctets(b);
    }
  }

  lemma {:induction false} TextOctets(b: seq<Label>)
    requires Text(b)
    ensures forall k | 0 <= k < |Wire(b)| :: Wire(b)[k] != 0
    decreases |b|
  {
    if b != [] {
      TextParts(b);
      TextOctets(b[1..]);
    }
  }

  /** A mark inside the stored labels is where the query departs, and the query's rest is the zone. */
  ghost predicate Strays(a: seq<Label>, n: Stored, zone: seq<Label>)
    requires Proper(a) && Proper(n.labels) && Proper(zone)
  {
    exists k :: StraysAt(Absolute(a), Wire(n.labels), Absolute(zone), k)
  }

  ghost predicate StraysAt(q: seq<byte>, w: seq<byte>, z: seq<byte>, k: nat) {
    Breaks(q, w, k) && Closed(q[k..]) && Closed(z) && Same(q[k..], z)
  }

  /** What the comparison answers yes to. */
  ghost predicate Matches(a: seq<Label>, n: Stored, zone: seq<Label>)
    requires Proper(a) && Proper(n.labels) && Proper(zone)
  {
    SameName(a, Expansion(n, zone)) || Strays(a, n, zone)
  }

  /** The zone pointer that goes with a name found for the question. */
  function PointerOf(n: Stored): nat
    requires Proper(n.labels)
  {
    if n.relative then QUESTION + |Wire(n.labels)| else 0
  }

  /** The place in the question at which the zone was found. */
  predicate ZoneAt(a: seq<Label>, zone: seq<Label>, ptr: nat)
    requires Proper(a) && Proper(zone)
  {
    var q := Absolute(a);
    QUESTION <= ptr < QUESTION + |q|
    && Closed(q[ptr - QUESTION..]) && Closed(Absolute(zone)) && Same(q[ptr - QUESTION..], Absolute(zone))
  }

  /**
   The comparison succeeds if and only if the query is the stored name expanded by its zone,
   but for case, or the stored labels hold an octet 0xC0 that leads it astray.  With the
   zone's place in the message, or 0 for an absolute name that is the query's.
   */
  lemma MatchIffSame(a: seq<Label>, n: Stored, zone: seq<Label>)
    requires Proper(a) && Text(n.labels) && Good(zone)
    ensures Closed(Absolute(a)) && Closed(Octets(n)) && Closed(Absolute(zone)) && Absolute(zone)[0] != MARK
    ensures var r := Compare(Absolute(a), Octets(n), Absolute(zone), 0, 0);
      && (r.0 <==> Matches(a, n, zone))
      && (r.0 && SameName(a, Expansion(n, zone)) ==> r.1 == PointerOf(n))
      && (r.0 ==> r.1 == 0 || ZoneAt(a, zone, r.1))
      && (r.0 && r.1 == 0 ==> SameName(a, Expansion(n, zone)) && !n.relative)
  {
    hide Compare, Agree, Same, Wire, FoldedAll, Begins, SameName, Closed, Text, Clean;
    var end := if n.relative then [MARK, 0] else [0];
    TextIsProper(n.labels);
    NameEnds([]);
    AbsoluteClosed(zone);
    assert Absolute(zone)[0] in Absolute(zone);
    AgreeLabels(a, n.labels, end);
    CompareToBreak(Absolute(a), Octets(n), Absolute(zone), 0, 0);
    if Begins(a, n.labels) { MatchToEnd(a, n, zone); } else { MatchAstray(a, n, zone); }
  }

  /** The query begins with the stored labels. */
  lemma MatchToEnd(a: seq<Label>, n: Stored, zone: seq<Label>)
    requires Proper(a) && Text(n.labels) && Good(zone) && Begins(a, n.labels)
    requires Closed(Absolute(a)) && Closed(Octets(n)) && Closed(Absolute(zone)) && Absolute(zone)[0] != MARK
    ensures var r := Compare(Absolute(a), Octets(n), Absolute(zone), 0, 0);
      && (r.0 <==> SameName(a, Expansion(n, zone))) && !Strays(a, n, zone)
      && (r.0 ==> r.1 == PointerOf(n) && (r.1 == 0 || ZoneAt(a, zone, r.1)))
      && (r.0 && r.1 == 0 ==> !n.relative)
  {
    hide Compare, Agree, Same, Wire, FoldedAll, Begins, SameName, Text, Clean, Closed, Strays;
    TextIsProper(n.labels);
    NoStrayAtEnd(a, n, zone);
    BeginsAll(a, n.labels, if n.relative then zone else []);
    assert n.labels + [] == n.labels;
    AgreesToEnd(a, n);
    var q, c, z, k, rest := Absolute(a), Octets(n), Absolute(zone), |Wire(n.labels)|, a[|n.labels|..];
    CompareToBreak(q, c, z, 0, 0);
    if n.relative {
      GoodIsText(zone);
      SameIsSameName(rest, zone);
      AbsoluteClosed(zone);
      ZoneOnly(q[k..], z, k);
    } else {
      SameEmpty(rest);
      NameEnds(rest);
    }
  }

  lemma AgreesToEnd(a: seq<Label>, n: Stored)
    requires Proper(a) && Text(n.labels) && Begins(a, n.labels)
    requires Closed(Absolute(a)) && Closed(Octets(n))
    ensures var k := |Wire(n.labels)|;
      && |n.labels| <= |a| && Proper(a[|n.labels|..]) && k < |Absolute(a)| && k < |Octets(n)|
      && Agree(Absolute(a), Octets(n)) == k
      && Absolute(a)[k..] == Absolute(a[|n.labels|..]) && Absolute(a)[k] == Absolute(a[|n.labels|..])[0]
      && Absolute(a)[k] != MARK && Octets(n)[k] == if n.relative then MARK else 0
  {
    hide Agree, Wire, Begins, Text, Clean, Closed;
    TextIsProper(n.labels);
    var end := if n.relative then [MARK, 0] else [0];
    NameEnds([]);
    AgreeLabels(a, n.labels, end);
    NameEnds(a[|n.labels|..]);
    assert Absolute(a)[|Wire(n.labels)|] == Absolute(a)[|Wire(n.labels)|..][0];
  }

  lemma NoStrayAtEnd(a: seq<Label>, n: Stored, zone: seq<Label>)
    requires Proper(a) && Text(n.labels) && Proper(zone) && Begins(a, n.labels)
    requires Closed(Absolute(a)) && Closed(Octets(n))
    ensures !Strays(a, n, zone)
  {
    hide Agree, Wire, Begins, Text, Same;
    TextIsProper(n.labels);
    AgreesToEnd(a, n);
    var q, w, end := Absolute(a), Wire(n.labels), if n.relative then [MARK, 0] else [0];
    forall m: nat | StraysAt(q, w, Absolute(zone), m) ensures false {
      BreaksLonger(q, w, end, m);
      BreakIsAgree(q, w + end, m);
    }
  }

  lemma BreakIsAgree(q: seq<byte>, c: seq<byte>, k: nat)
    requires Closed(q) && Closed(c) && Breaks(q, c, k)
    ensures Agree(q, c) == k
  {
    UpperOfMark(q[k]);
    AgreeIs(q, c, k);
  }

  lemma BreaksLonger(q: seq<byte>, w: seq<byte>, end: seq<byte>, k: nat)
    requires Breaks(q, w, k)
    ensures Breaks(q, w + end, k)
  {
  }

  /** It does not, so that only a mark inside them can help. */
  lemma MatchAstray(a: seq<Label>, n: Stored, zone: seq<Label>)
    requires Proper(a) && Text(n.labels) && Good(zone) && !Begins(a, n.labels)
    requires Closed(Absolute(a)) && Closed(Octets(n)) && Closed(Absolute(zone)) && Absolute(zone)[0] != MARK
    ensures var r := Compare(Absolute(a), Octets(n), Absolute(zone), 0, 0);
      && (r.0 <==> Strays(a, n, zone)) && !SameName(a, Expansion(n, zone))
      && (r.0 ==> ZoneAt(a, zone, r.1))
  {
    hide Compare, Agree, Same, Wire, FoldedAll, Begins, SameName, Text, Clean, Closed, Breaks;
    var end := if n.relative then [MARK, 0] else [0];
    TextIsProper(n.labels);
    NameEnds([]);
    AgreeLabels(a, n.labels, end);
    TextOctets(n.labels);
    BeginsAll(a, n.labels, if n.relative then zone else []);
    assert n.labels + [] == n.labels;
    AbsoluteClosed(zone);
    AstrayOctets(Absolute(a), Wire(n.labels), end, Absolute(zone));
  }

  /** The stored octets before the end hold the place at which the query departs. */
  lemma AstrayOctets(q: seq<byte>, w: seq<byte>, end: seq<byte>, z: seq<byte>)
    requires Closed(q) && Closed(w + end) && Closed(z) && MARK !in z && z[0] != MARK
    requires Agree(q, w + end) < |w| && forall j | 0 <= j < |w| :: w[j] != 0
    ensures var r, k := Compare(q, w + end, z, 0, 0), Agree(q, w + end);
      && (r.0 <==> exists m :: StraysAt(q, w, z, m))
      && (r.0 ==> r.1 == k + QUESTION && k < |q| && Closed(q[k..]) && Same(q[k..], z))
  {
    hide Compare, Agree, Same, Closed, Breaks, StraysAt;
    var c, k := w + end, Agree(q, w + end);
    StrayPlace(q, w, end, z);
    assert c[k] == w[k];
    if w[k] == MARK {
      CompareAtMark(q, c, z);
      BreaksHere(q, w, end);
      StrayHere(q, w, z, k);
    } else {
      CompareOff(q, c, z);
    }
  }

  lemma StrayHere(q: seq<byte>, w: seq<byte>, z: seq<byte>, k: nat)
    requires Breaks(q, w, k) && Closed(q[k..]) && Closed(z)
    ensures StraysAt(q, w, z, k) <==> Same(q[k..], z)
  {
    hide Breaks, Closed, Same;
  }

  /** At a mark the rest of the query is compared with the zone. */
  lemma CompareAtMark(q: seq<byte>, c: seq<byte>, z: seq<byte>)
    requires Closed(q) && Closed(c) && Closed(z) && MARK !in z && z[0] != MARK && c[Agree(q, c)] == MARK
    ensures var k := Agree(q, c);
      Compare(q, c, z, 0, 0) == (Same(q[k..], z), k + QUESTION)
  {
    hide Compare, Agree, Same, Closed;
    CompareToBreak(q, c, z, 0, 0);
    AgreeFacts(q, c);
    ZoneOnly(q[Agree(q, c)..], z, Agree(q, c));
  }

  lemma CompareOff(q: seq<byte>, c: seq<byte>, z: seq<byte>)
    requires Closed(q) && Closed(c) && Closed(z) && z[0] != MARK
    requires c[Agree(q, c)] != MARK && c[Agree(q, c)] != 0
    ensures Compare(q, c, z, 0, 0) == (false, 0)
  {
    hide Compare, Agree, Closed;
    CompareToBreak(q, c, z, 0, 0);
  }

  lemma StrayPlace(q: seq<byte>, w: seq<byte>, end: seq<byte>, z: seq<byte>)
    requires Closed(q) && Closed(w + end)
    ensures forall m: nat | StraysAt(q, w, z, m) :: m == Agree(q, w + end) && m < |w| && w[m] == MARK
  {
    hide Agree, Same, Breaks, Closed;
    forall m: nat | StraysAt(q, w, z, m) ensures m == Agree(q, w + end) && m < |w| && w[m] == MARK {
      BreaksLonger(q, w, end, m);
      BreakIsAgree(q, w + end, m);
      MarkOf(q, w, m);
    }
  }

  lemma MarkOf(q: seq<byte>, w: seq<byte>, k: nat)
    requires Breaks(q, w, k)
    ensures k < |w| && w[k] == MARK
  {
  }

  lemma BreaksHere(q: seq<byte>, w: seq<byte>, end: seq<byte>)
    requires Closed(q) && Closed(w + end) && Agree(q, w + end) < |w| && w[Agree(q, w + end)] == MARK
    ensures Breaks(q, w, Agree(q, w + end))
  {
    hide Agree, Closed;
    var k := Agree(q, w + end);
    AgreeFacts(q, w + end);
    UpperOfMark(q[k]);
    assert forall j | 0 <= j < k :: (w + end)[j] == w[j];
  }

  lemma AgreeFacts(q: seq<byte>, c: seq<byte>)
    requires Closed(q) && Closed(c)
    ensures var k := Agree(q, c);
      && k < |q| && k < |c| && Closed(q[k..]) && (q[k] == 0 || Upper(q[k]) != Upper(c[k]))
      && forall j | 0 <= j < k :: Upper(q[j]) == Upper(c[j]) && q[j] != 0
  {
  }

  /** Without an octet 0xC0 in the stored labels only the name itself matches. */
  lemma GoodNeverStrays(a: seq<Label>, n: Stored, zone: seq<Label>)
    requires Proper(a) && Good(n.labels) && Proper(zone)
    ensures !Strays(a, n, zone)
  {
    hide Wire, Breaks;
    WireOctets(n.labels);
    forall k: nat | StraysAt(Absolute(a), Wire(n.labels), Absolute(zone), k) ensures false {
      MarkOf(Absolute(a), Wire(n.labels), k);
    }
  }

  /**
   A stray: a stored label that is the octet 0xC0 alone, in a zone whose one label is an
   octet for the length of `t` and then `t`, is found for a query of two labels.
   */
  lemma MarkInsideLabel(t: Label)
    requires Clean(t) && 1 <= |t| <= 62
    ensures var a, n, zone := [[(|t| + 1) as byte], t], Stored([[MARK]], false), [[|t| as byte] + t];
      && Proper(a) && Text(n.labels) && Good(zone)
      && Strays(a, n, zone) && !SameName(a, Expansion(n, zone))
  {
    hide Wire, Same, Closed;
    var k: byte := |t| + 1;
    var a, n, zone := [[k], t], Stored([[MARK]], false), [[|t| as byte] + t];
    assert Good(zone);
    AbsoluteClosed(zone);
    OneWire([[MARK]]);
    OneWire(zone);
    OneWire([t]);
    WireFirst(a, [0]);
    assert a[1..] == [t];
    assert Wire(n.labels) == [1, MARK];
    assert Absolute(zone) == [k] + ([|t| as byte] + t + [0]);
    assert Absolute(a) == [1] + Absolute(zone);
    StrayOne(Absolute(zone), k);
    assert |FoldedAll(a)| == 2;
  }

  lemma StrayOne(z: seq<byte>, k: byte)
    requires Closed(z) && z[0] == k && k != MARK
    ensures StraysAt([1] + z, [1, MARK], z, 1)
  {
    assert ([1] + z)[1..] == z;
    SameItself(z);
  }

  lemma OneWire(labels: seq<Label>)
    requires |labels| == 1 && Proper(labels)
    ensures Wire(labels) == [|labels[0]| as byte] + labels[0]
  {
    assert labels[1..] == [];
    NoWire();
  }

  lemma {:induction false} SameItself(q: seq<byte>)
    requires Closed(q)
    ensures Same(q, q)
    decreases |q|
  {
    if q[0] != 0 { SameItself(q[1..]); }
  }

  // ------------------------------------------------------------------- printing

  function PointerTo(ptr: nat): (p: seq<byte>)
    requires ptr < 0x4000
    ensures |p| == 2
  {
    [MARK + ptr / 0x100, ptr % 0x100]
  }

  /** What is to be printed: for a relative name the zone follows, or a pointer to it. */
  function Printed(n: Stored, zone: seq<Label>, ptr: nat): seq<byte>
    requires Proper(n.labels) && Proper(zone) && ptr < 0x4000
  {
    Wire(n.labels) +
    if !n.relative then [0] else if ptr != 0 then PointerTo(ptr) else Absolute(zone)
  }

  /** The last octet before the end is inside the room; a pointer's second may be one beyond. */
  predicate Fits(n: Stored, zone: seq<Label>, ptr: nat, len: int)
    requires Proper(n.labels) && Proper(zone) && ptr < 0x4000
  {
    |Printed(n, zone, ptr)| <= if n.relative && ptr != 0 then len + 1 else len
  }

  /** How many octets are written; a print that is given up has filled its room. */
  function Written(n: Stored, zone: seq<Label>, ptr: nat, len: int): (count: nat)
    requires Proper(n.labels) && Proper(zone) && ptr < 0x4000
  {
    if Fits(n, zone, ptr, len) then |Printed(n, zone, ptr)| else if len < 0 then 0 else len
  }

  /** rprt_name; nothing is answered if the name does not fit, but as much of it is written as there is room. */
  method PrintName(memory: array<byte>, base: nat, name: array<byte>, zname: array<byte>, zonePtr: nat, len: int,
                   ghost n: Stored, ghost zone: seq<Label>)
    returns (end: Option<nat>)
    requires Good(n.labels) && Good(zone) && zonePtr < 0x4000
    requires |Octets(n)| <= name.Length && name[..|Octets(n)|] == Octets(n)
    requires |Absolute(zone)| <= zname.Length && zname[..|Absolute(zone)|] == Absolute(zone)
    requires base + len < memory.Length && base < memory.Length && memory != name && memory != zname
    modifies memory
    ensures end.Some? <==> Fits(n, zone, zonePtr, len)
    ensures end.Some? ==> end.value == base + |Printed(n, zone, zonePtr)|
    ensures var count, p := Written(n, zone, zonePtr, len), Printed(n, zone, zonePtr);
      && count <= |p| && base + count <= memory.Length
      && (forall k | base <= k < base + count :: memory[k] == p[k - base])
      && (forall k | 0 <= k < memory.Length && (k < base || base + count <= k) :: memory[k] == old(memory[k]))
  {
    hide Wire, Printed, Octets, Absolute, Clean, PointerTo;
    ghost var p, w := Printed(n, zone, zonePtr), Wire(n.labels);
    PrintedParts(n, zone, zonePtr);
    assert forall k | 0 <= k < |Octets(n)| :: name[k] == name[..|Octets(n)|][k];
    assert forall k | 0 <= k < |Absolute(zone)| :: zname[k] == zname[..|Absolute(zone)|][k];
    var room := if len < 0 then 0 else len;
    var last := CopyOctets(memory, base, room, name, |w|);
    if last == room {
      return None;
    }
    if name[last] == 0 {
      return Some(base + last + 1);
    }
    if zonePtr != 0 {
      WritePointer(memory, base + last, zonePtr);
      return Some(base + last + 2);
    }
    var i := CopyOctets(memory, base + last, room - last, zname, |Absolute(zone)| - 1);
    if last + i == room {
      return None;
    }
    return Some(base + last + i + 1);
  }

  /** The loop, as far as an end or a mark, which is at place `stop` of the text, or the end of the room. */
  method CopyOctets(memory: array<byte>, at: nat, room: nat, text: array<byte>, ghost stop: nat) returns (i: nat)
    requires at + room <= memory.Length && stop < text.Length && memory != text
    requires (text[stop] == 0 || text[stop] == MARK)
    requires forall k | 0 <= k < stop :: text[k] != 0 && text[k] != MARK
    modifies memory
    ensures i == if stop < room then stop else room
    ensures forall k | at <= k < at + i :: memory[k] == text[k - at]
    ensures i < room ==> memory[at + i] == text[i]
    ensures forall k | 0 <= k < memory.Length && (k < at || at + i < k || k == at + i == at + room) ::
      memory[k] == old(memory[k])
  {
    i := 0;
    while i < room
      invariant i <= stop && i <= room && forall k | at <= k < at + i :: memory[k] == text[k - at]
      invariant forall k | 0 <= k < memory.Length && (k < at || at + i <= k) :: memory[k] == old(memory[k])
    {
      memory[at + i] := text[i];
      if memory[at + i] == 0 || memory[at + i] == MARK {
        return;
      }
      i := i + 1;
    }
  }

  lemma PrintedParts(n: Stored, zone: seq<Label>, ptr: nat)
    requires Good(n.labels) && Good(zone) && ptr < 0x4000
    ensures var p, w, o := Printed(n, zone, ptr), Wire(n.labels), Octets(n);
      && |w| < |o| && |w| < |p|
      && (forall k | 0 <= k < |w| :: o[k] == p[k] && p[k] != 0 && p[k] != MARK)
      && o[|w|] == (if n.relative then MARK else 0)
      && (!n.relative ==> |o| == |p| == |w| + 1 && p[|w|] == 0)
      && (n.relative && ptr != 0 ==> |p| == |w| + 2 && p[|w|] == PointerTo(ptr)[0] && p[|w| + 1] == PointerTo(ptr)[1])
      && (n.relative && ptr == 0 ==> |p| == |w| + |Absolute(zone)|)
      && (n.relative && ptr == 0 ==> forall k | |w| <= k < |p| :: p[k] == Absolute(zone)[k - |w|])
    ensures forall k | 0 <= k < |Absolute(zone)| :: Absolute(zone)[k] != MARK
    ensures forall k | 0 <= k < |Absolute(zone)| :: Absolute(zone)[k] == 0 <==> k == |Absolute(zone)| - 1
  {
    hide Wire, Clean;
    WireOctets(n.labels);
    WireOctets(zone);
    Behind(Wire(n.labels), if n.relative then [MARK, 0] else [0]);
    Behind(Wire(n.labels), if !n.relative then [0] else if ptr != 0 then PointerTo(ptr) else Absolute(zone));
    Behind(Wire(zone), [0]);
  }

  lemma WireOctets(labels: seq<Label>)
    requires Good(labels)
    ensures forall k | 0 <= k < |Wire(labels)| :: Wire(labels)[k] != 0 && Wire(labels)[k] != MARK
  {
    WireClean(labels);
    forall k | 0 <= k < |Wire(labels)| ensures Wire(labels)[k] != 0 && Wire(labels)[k] != MARK {
      assert Wire(labels)[k] in Wire(labels);
    }
  }

  lemma Behind(w: seq<byte>, e: seq<byte>)
    ensures forall k | 0 <= k < |w| :: (w + e)[k] == w[k]
    ensures forall k | |w| <= k < |w| + |e| :: (w + e)[k] == e[k - |w|]
  {
  }

  method WritePointer(memory: array<byte>, at: nat, ptr: nat)
    requires at + 1 < memory.Length && ptr < 0x4000
    modifies memory
    ensures memory[at] == PointerTo(ptr)[0] && memory[at + 1] == PointerTo(ptr)[1]
    ensures forall k | 0 <= k < memory.Length && k != at && k != at + 1 :: memory[k] == old(memory[k])
  {
    memory[at], memory[at + 1] := MARK + ptr / 0x100, ptr % 0x100;
  }

  // ------------------------------------------------- the room the program gives a name

  /** Octets of a packet buffer, and of the record header in front of a name. */
  const BUFFER: nat := 512
  const HEADER: nat := 12

  /** The print stays in the buffer of the packet. */
  predicate Inside(n: Stored, zone: seq<Label>, ptr: nat, datalen: nat)
    requires Proper(n.labels) && Proper(zone) && ptr < 0x4000
  {
    var count := Written(n, zone, ptr, 502 - datalen);
    count == 0 || datalen + HEADER + count <= BUFFER
  }

  /**
   Both calls of rprt_name: the name goes behind a record header, with room for two octets
   more than the buffer has.  The first 512 octets of `memory` are the buffer.  A print that
   does not stay inside ends with the last octet written one to three places behind it.
   */
  method PrintRecordName(memory: array<byte>, datalen: nat, name: array<byte>, zname: array<byte>, zonePtr: nat,
                         ghost n: Stored, ghost zone: seq<Label>)
    returns (end: Option<nat>)
    requires Good(n.labels) && Good(zone) && zonePtr < 0x4000 && datalen <= BUFFER
    requires |Octets(n)| <= name.Length && name[..|Octets(n)|] == Octets(n)
    requires |Absolute(zone)| <= zname.Length && zname[..|Absolute(zone)|] == Absolute(zone)
    requires BUFFER + HEADER < memory.Length && memory != name && memory != zname
    modifies memory
    ensures end.Some? <==> Fits(n, zone, zonePtr, 502 - datalen)
    ensures end.Some? ==> end.value == datalen + HEADER + |Printed(n, zone, zonePtr)|
    ensures forall k | 0 <= k < datalen + HEADER :: memory[k] == old(memory[k])
    ensures Inside(n, zone, zonePtr, datalen) ==>
      forall k | BUFFER <= k < memory.Length :: memory[k] == old(memory[k])
    ensures !Inside(n, zone, zonePtr, datalen) ==>
      var count, p := Written(n, zone, zonePtr, 502 - datalen), Printed(n, zone, zonePtr);
      var last := datalen + HEADER + count - 1;
      0 < count <= |p| && BUFFER <= last < BUFFER + 3 && memory[last] == p[count - 1]
    ensures end.Some? && Inside(n, zone, zonePtr, datalen) ==>
      end.value <= BUFFER && memory[datalen + HEADER..end.value] == Printed(n, zone, zonePtr)
  {
    hide Printed, Octets, Absolute;
    PrintedNotEmpty(n, zone, zonePtr);
    end := PrintName(memory, datalen + HEADER, name, zname, zonePtr, 502 - datalen, n, zone);
    if end.Some? && Inside(n, zone, zonePtr, datalen) { SliceIs(memory, datalen + HEADER, Printed(n, zone, zonePtr)); }
  }

  lemma PrintedNotEmpty(n: Stored, zone: seq<Label>, ptr: nat)
    requires Proper(n.labels) && Proper(zone) && ptr < 0x4000
    ensures 0 < |Printed(n, zone, ptr)| && (n.relative && ptr != 0 ==> 2 <= |Printed(n, zone, ptr)|)
  {
  }

  /** It stays inside if and only if the name is within 500 octets less what the packet has already. */
  lemma InsideIffShort(n: Stored, zone: seq<Label>, ptr: nat, datalen: nat)
    requires Proper(n.labels) && Proper(zone) && ptr < 0x4000 && datalen <= 501
    ensures Inside(n, zone, ptr, datalen) <==> |Printed(n, zone, ptr)| <= 500 - datalen
  {
    hide Printed;
    PrintedNotEmpty(n, zone, ptr);
  }

  /** A name of four labels of sixty octets behind a question of 300 does not. */
  lemma FourLabelsOverrun(zone: seq<Label>, l: Label)
    requires Good(zone) && Clean(l) && |l| == 60
    ensures var n := Stored([l, l, l, l], false);
      Good(n.labels) && |Octets(n)| == 245 && !Inside(n, zone, 0, 300)
  {
    var labels := [l, l, l, l];
    assert forall m | m in labels :: m == l;
    FourLabels(l);
    InsideIffShort(Stored(labels, false), zone, 0, 300);
  }

  lemma FourLabels(l: Label)
    requires |l| == 60
    ensures Proper([l, l, l, l]) && |Wire([l, l, l, l])| == 244
  {
    hide Wire;
    NoWire();
    assert [l, l, l, l][1..] == [l, l, l] && [l, l, l][1..] == [l, l] && [l, l][1..] == [l] && [l][1..] == [];
    WireFirst([l, l, l, l], []);
    WireFirst([l, l, l], []);
    WireFirst([l, l], []);
    WireFirst([l], []);
  }

  lemma SliceIs(s: array<byte>, base: nat, p: seq<byte>)
    requires base + |p| <= s.Length && forall k | base <= k < base + |p| :: s[k] == p[k - base]
    ensures s[base..base + |p|] == p
  {
  }

  // --------------------------------------------------------- what the printed name means

  /** Labels in the packet and then a zero: the name is those labels. */
  lemma ReadAbsolute(pkt: seq<byte>, i: nat, labels: seq<Label>, hops: nat)
    requires Proper(labels) && i + |Absolute(labels)| <= |pkt|
    requires pkt[i..i + |Absolute(labels)|] == Absolute(labels)
    ensures Ends(pkt, i, hops) && LabelsAt(pkt, i, hops) == labels
  {
    hide Ends, LabelsAt;
    var w, a := Wire(labels), Absolute(labels);
    SliceOfSlice(pkt, i, a, 0, |w|);
    SliceOfSlice(pkt, i, a, |w|, |w| + 1);
    assert a[..|w|] == w;
    ReadLabels(pkt, i, labels, hops);
    ReadZero(pkt, i + |w|, hops);
    assert labels + [] == labels;
  }

  lemma ReadPointer(pkt: seq<byte>, i: nat, ptr: nat, hops: nat)
    requires ptr < 0x4000 && i + 2 <= |pkt| && pkt[i..i + 2] == PointerTo(ptr) && 0 < hops
    ensures Ends(pkt, i, hops) <==> Ends(pkt, ptr, hops - 1)
    ensures Ends(pkt, i, hops) ==> LabelsAt(pkt, i, hops) == LabelsAt(pkt, ptr, hops - 1)
  {
    assert pkt[i] == pkt[i..i + 2][0] && pkt[i + 1] == pkt[i..i + 2][1];
  }

  /**
   The name printed at `base`, read back with all its pointers followed: its own labels, and
   then those of the zone, or those the pointer leads to.
   */
  lemma PrintedReads(pkt: seq<byte>, base: nat, n: Stored, zone: seq<Label>, ptr: nat, there: seq<Label>)
    requires Proper(n.labels) && Proper(zone) && ptr < 0x4000
    requires var p := Printed(n, zone, ptr); base + |p| <= |pkt| && pkt[base..base + |p|] == p
    requires n.relative && ptr != 0 ==> Ends(pkt, ptr, 0) && LabelsAt(pkt, ptr, 0) == there
    requires ptr == 0 ==> there == zone
    ensures Ends(pkt, base, 1)
    ensures LabelsAt(pkt, base, 1) == Expansion(n, there)
  {
    hide Ends, LabelsAt, PointerTo, Wire, Absolute, Printed;
    var next := base + |Wire(n.labels)|;
    PrintedRest(n, zone, ptr);
    PrintedFront(pkt, base, n.labels, Printed(n, zone, ptr));
    if !n.relative {
      ReadEnd(pkt, next);
      assert n.labels + [] == n.labels;
    } else if ptr != 0 {
      ReadPointer(pkt, next, ptr, 1);
    } else {
      ReadAbsolute(pkt, next, zone, 1);
    }
  }

  lemma PrintedRest(n: Stored, zone: seq<Label>, ptr: nat)
    requires Proper(n.labels) && Proper(zone) && ptr < 0x4000
    ensures var w, p := Wire(n.labels), Printed(n, zone, ptr);
      && w <= p && |p| == |w| + |p[|w|..]|
      && p[|w|..] == if !n.relative then [0] else if ptr != 0 then PointerTo(ptr) else Absolute(zone)
  {
    hide Wire, Absolute, PointerTo;
  }

  lemma PrintedFront(pkt: seq<byte>, base: nat, labels: seq<Label>, p: seq<byte>)
    requires Proper(labels) && Wire(labels) <= p && base + |p| <= |pkt| && pkt[base..base + |p|] == p
    ensures var next := base + |Wire(labels)|;
      && pkt[next..base + |p|] == p[|Wire(labels)|..]
      && (Ends(pkt, base, 1) <==> Ends(pkt, next, 1))
      && (Ends(pkt, base, 1) ==> LabelsAt(pkt, base, 1) == labels + LabelsAt(pkt, next, 1))
  {
    hide Ends, LabelsAt, Wire;
    var w := Wire(labels);
    SliceOfSlice(pkt, base, p, 0, |w|);
    SliceOfSlice(pkt, base, p, |w|, |p|);
    FrontOf(w, p);
    ReadLabels(pkt, base, labels, 1);
  }

  lemma FrontOf(w: seq<byte>, p: seq<byte>)
    requires w <= p
    ensures p[0..|w|] == w
  {
  }

  lemma ReadEnd(pkt: seq<byte>, i: nat)
    requires i + 1 <= |pkt| && pkt[i..i + 1] == [0]
    ensures Ends(pkt, i, 1) && LabelsAt(pkt, i, 1) == []
  {
    assert pkt[i] == pkt[i..i + 1][0];
  }

  lemma {:induction false} FoldedConcat(a: seq<Label>, b: seq<Label>)
    ensures FoldedAll(a + b) == FoldedAll(a) + FoldedAll(b)
  {
    if a == [] {
      assert a + b == b;
    } else {
      assert (a + b)[1..] == a[1..] + b;
      FoldedConcat(a[1..], b);
    }
  }

  /** One label of the same octets, but for case, and what follows it. */
  lemma {:induction false} SameText(t: seq<byte>, l: Label, r: seq<byte>)
    requires Closed(t) && Closed(r) && 0 !in l && Closed(l + r) && Same(t, l + r)
    ensures |l| < |t| && Closed(t[|l|..]) && Same(t[|l|..], r) && Folded(t[..|l|]) == Folded(l)
    decreases |l|
  {
    if l == [] {
      assert l + r == r && t[0..] == t;
    } else {
      assert (l + r)[1..] == l[1..] + r && l[0] in l;
      SameText(t[1..], l[1..], r);
      assert t[1..][|l| - 1..] == t[|l|..];
      assert t[..|l|][1..] == t[1..][..|l| - 1];
    }
  }

  /** Octets of a packet that are a name's, but for case, are read as that name, but for case. */
  lemma {:induction false} SameReads(pkt: seq<byte>, i: nat, t: seq<byte>, zone: seq<Label>)
    requires Text(zone) && Closed(t) && Closed(Absolute(zone)) && Same(t, Absolute(zone))
    requires i + |t| <= |pkt| && pkt[i..i + |t|] == t
    ensures Ends(pkt, i, 0) && SameName(LabelsAt(pkt, i, 0), zone)
    decreases |zone|
  {
    hide Ends, LabelsAt, Wire, Closed, Same, Folded, Text;
    TextIsProper(zone);
    AbsoluteClosed(zone);
    FirstOfBoth(t, Absolute(zone));
    Slices(pkt, i, t, 1);
    if zone == [] {
      ReadZero(pkt, i, 0);
    } else {
      var l, n := zone[0], 1 + |zone[0]|;
      SameFirst(t, zone);
      Slices(pkt, i, t, n);
      SameReads(pkt, i + n, t[n..], zone[1..]);
      ReadOne(pkt, i, t[1..n], 0);
      OneLabelMore(t[1..n], l, LabelsAt(pkt, i + n, 0), zone);
    }
  }

  /** The first label of octets that are a name's, but for case. */
  lemma SameFirst(t: seq<byte>, zone: seq<Label>)
    requires zone != [] && Text(zone) && Closed(t) && Closed(Absolute(zone)) && Same(t, Absolute(zone))
    ensures var n := 1 + |zone[0]|;
      && 1 < n <= 64 && n <= |t| && t[0] == n - 1 && Folded(t[1..n]) == Folded(zone[0])
      && Text(zone[1..]) && Closed(t[n..]) && Closed(Absolute(zone[1..])) && Same(t[n..], Absolute(zone[1..]))
  {
    hide Wire, Closed, Same, Folded, Text;
    var l, rest := zone[0], zone[1..];
    TextIsProper(zone);
    AbsoluteClosed(zone);
    FirstOfBoth(t, Absolute(zone));
    TextParts(zone);
    TextIsProper(rest);
    WireFirst(zone, [0]);
    AbsoluteClosed(rest);
    UpperOfLength(t[0], |l| as byte);
    assert Absolute(zone)[1..] == l + Absolute(rest);
    SameText(t[1..], l, Absolute(rest));
    Halves(t, |l|);
  }

  lemma Slices(pkt: seq<byte>, i: nat, t: seq<byte>, n: nat)
    requires 1 <= n <= |t| && i + |t| <= |pkt| && pkt[i..i + |t|] == t
    ensures pkt[i] == t[0] && pkt[i..i + 1] == t[0..1]
    ensures pkt[i + 1..i + n] == t[1..n] && pkt[i + n..i + |t|] == t[n..]
  {
    SliceOfSlice(pkt, i, t, 0, 1);
    SliceOfSlice(pkt, i, t, 1, n);
    SliceOfSlice(pkt, i, t, n, |t|);
    assert pkt[i..i + |t|][0] == pkt[i];
  }

  lemma Halves(t: seq<byte>, n: nat)
    requires 1 + n <= |t|
    ensures t[1..][..n] == t[1..1 + n] && t[1..][n..] == t[1 + n..]
  {
  }

  lemma OneLabelMore(x: Label, l: Label, read: seq<Label>, zone: seq<Label>)
    requires zone != [] && zone[0] == l && Folded(x) == Folded(l) && SameName(read, zone[1..])
    ensures SameName([x] + read, zone)
  {
    assert ([x] + read)[1..] == read;
  }

  lemma FirstOfBoth(t: seq<byte>, c: seq<byte>)
    requires Closed(t) && Closed(c) && Same(t, c)
    ensures Upper(t[0]) == Upper(c[0]) && |t| > 0
    ensures c[0] != 0 ==> Closed(t[1..]) && Closed(c[1..]) && Same(t[1..], c[1..])
  {
  }

  /** The zone's place in the question, as the comparison gives it, holds the zone's labels but for case. */
  lemma ZoneInQuestion(pkt: seq<byte>, a: seq<Label>, zone: seq<Label>, ptr: nat)
    requires Proper(a) && Good(zone) && ZoneAt(a, zone, ptr)
    requires QUESTION + |Absolute(a)| <= |pkt|
    requires pkt[QUESTION..QUESTION + |Absolute(a)|] == Absolute(a)
    ensures Ends(pkt, ptr, 0) && SameName(LabelsAt(pkt, ptr, 0), zone)
  {
    hide Ends, LabelsAt, Same, Closed, Wire, SameName;
    var q, k := Absolute(a), ptr - QUESTION;
    GoodIsText(zone);
    SliceOfSlice(pkt, QUESTION, q, k, |q|);
    SameReads(pkt, ptr, q[k..], zone);
  }

  /**
   An alias is found for the question, and the canonical name printed into a record behind
   it, with the comparison's zone pointer, stays in the buffer: read back, the printed name
   is the canonical name expanded by its zone, but for case.
   */
  lemma AnswerIsCanonical(
    pkt: seq<byte>, datalen: nat, a: seq<Label>, alias: Stored, cname: Stored, zone: seq<Label>)
    requires Proper(a) && Text(alias.labels) && Good(cname.labels) && Good(zone)
    requires |pkt| == BUFFER && QUESTION + |Absolute(a)| <= datalen <= BUFFER
    requires pkt[QUESTION..QUESTION + |Absolute(a)|] == Absolute(a)
    requires Closed(Absolute(a)) && Closed(Octets(alias)) && Closed(Absolute(zone)) && Absolute(zone)[0] != MARK
    requires var r := Compare(Absolute(a), Octets(alias), Absolute(zone), 0, 0);
      && r.0 && r.1 < 0x4000
      && var p, base := Printed(cname, zone, r.1), datalen + HEADER;
         |p| <= 500 - datalen && base + |p| <= |pkt| && pkt[base..base + |p|] == p
    ensures Ends(pkt, datalen + HEADER, 1)
    ensures SameName(LabelsAt(pkt, datalen + HEADER, 1), Expansion(cname, zone))
  {
    hide Ends, LabelsAt, Compare, Closed, Absolute, Octets, Printed, FoldedAll, Matches, ZoneAt;
    MatchIffSame(a, alias, zone);
    var ptr := Compare(Absolute(a), Octets(alias), Absolute(zone), 0, 0).1;
    if ptr != 0 {
      ZoneInQuestion(pkt, a, zone, ptr);
      var there := LabelsAt(pkt, ptr, 0);
      PrintedReads(pkt, datalen + HEADER, cname, zone, ptr, there);
      FoldedConcat(cname.labels, there);
      FoldedConcat(cname.labels, zone);
    } else {
      PrintedReads(pkt, datalen + HEADER, cname, zone, 0, zone);
    }
  }

  lemma SameSlice(s: seq<byte>, t: seq<byte>, i: nat, j: nat)
    requires i <= j <= |s| && j <= |t| && forall k | i <= k < j :: s[k] == t[k]
    ensures s[i..j] == t[i..j]
  {
  }

  /**
   The record for an alias that was found: if its name is finished inside the buffer, the
   packet has the canonical name in it.
   */
  method AddCname(memory: array<byte>, datalen: nat, name: array<byte>, zname: array<byte>, zonePtr: nat,
                  ghost a: seq<Label>, ghost alias: Stored, ghost cname: Stored, ghost zone: seq<Label>)
    returns (end: Option<nat>)
    requires Proper(a) && Text(alias.labels) && Good(cname.labels) && Good(zone)
    requires QUESTION + |Absolute(a)| <= datalen <= BUFFER && BUFFER + HEADER < memory.Length
    requires memory[QUESTION..QUESTION + |Absolute(a)|] == Absolute(a)
    requires memory != name && memory != zname
    requires |Octets(cname)| <= name.Length && name[..|Octets(cname)|] == Octets(cname)
    requires |Absolute(zone)| <= zname.Length && zname[..|Absolute(zone)|] == Absolute(zone)
    requires Closed(Absolute(a)) && Closed(Octets(alias)) && Closed(Absolute(zone)) && Absolute(zone)[0] != MARK
    requires Compare(Absolute(a), Octets(alias), Absolute(zone), 0, 0) == (true, zonePtr)
    modifies memory
    ensures end.Some? && end.value <= BUFFER ==>
      Ends(memory[..BUFFER], datalen + HEADER, 1)
      && SameName(LabelsAt(memory[..BUFFER], datalen + HEADER, 1), Expansion(cname, zone))
  {
    hide Ends, LabelsAt, Compare, Closed, Absolute, Octets, Printed, SameName, Matches, Same;
    MatchIffSame(a, alias, zone);
    ghost var question := Absolute(a);
    ghost var p := Printed(cname, zone, zonePtr);
    end := PrintRecordName(memory, datalen, name, zname, zonePtr, cname, zone);
    if end.Some? && end.value <= BUFFER {
      ghost var pkt: seq<byte>, base := memory[..BUFFER], datalen + HEADER;
      assert Inside(cname, zone, zonePtr, datalen) && base + |p| == end.value;
      assert memory[base..base + |p|] == p;
      SameSlice(pkt, old(memory[..]), QUESTION, QUESTION + |question|);
      assert old(memory[..])[QUESTION..QUESTION + |question|] == old(memory[QUESTION..QUESTION + |question|]);
      assert pkt[base..base + |p|] == memory[base..base + |p|];
      AnswerIsCanonical(pkt, datalen, a, alias, cname, zone);
    }
  }

  // --------------------------------------------------------------------- lookup

  datatype Host = Host(cname: Stored, aliases: seq<Stored>)
  datatype Zone = Zone(name: seq<Label>, hosts: seq<Host>)

  predicate HostText(host: Host) {
    Text(host.cname.labels) && forall k | 0 <= k < |host.aliases| :: Text(host.aliases[k].labels)
  }

  predicate ZonesText(zones: seq<Zone>) {
    forall i | 0 <= i < |zones| ::
      Good(zones[i].name) && forall j | 0 <= j < |zones[i].hosts| :: HostText(zones[i].hosts[j])
  }

  /** The host has the name asked for, as its own or as an alias. */
  ghost predicate Named(a: seq<Label>, zone: seq<Label>, host: Host)
    requires Proper(a) && Proper(zone) && HostText(host)
  {
    Matches(a, host.cname, zone)
    || exists k :: 0 <= k < |host.aliases| && Matches(a, host.aliases[k], zone)
  }

  /** The canonical name first, then the aliases; `alias` is the one found, if any is needed. */
  method MatchHost(q: seq<byte>, zone: seq<Label>, host: Host, ghost a: seq<Label>)
    returns (found: bool, alias: Option<nat>, zonePtr: nat)
    requires Proper(a) && q == Absolute(a) && Good(zone) && HostText(host)
    ensures found <==> Named(a, zone, host)
    ensures found ==> (alias == None <==> Matches(a, host.cname, zone))
    ensures found && alias.Some? ==> alias.value < |host.aliases|
    ensures found && alias.Some? ==> Matches(a, host.aliases[alias.value], zone)
    ensures found ==> zonePtr == 0 || ZoneAt(a, zone, zonePtr)
  {
    hide Compare, Closed, Matches, ZoneAt, Expansion;
    MatchIffSame(a, host.cname, zone);
    alias := None;
    var r := Compare(q, Octets(host.cname), Absolute(zone), 0, 0);
    found, zonePtr := r.0, r.1;
    if found {
      return;
    }
    for k := 0 to |host.aliases|
      invariant forall m | 0 <= m < k :: !Matches(a, host.aliases[m], zone)
    {
      MatchIffSame(a, host.aliases[k], zone);
      r := Compare(q, Octets(host.aliases[k]), Absolute(zone), 0, 0);
      found, zonePtr := r.0, r.1;
      if found {
        alias := Some(k);
        return;
      }
    }
    found := false;
  }

  /** The first host, in the order of the zones and of their hosts, that has the name. */
  method Lookup(q: seq<byte>, zones: seq<Zone>, ghost a: seq<Label>)
    returns (found: bool, z: nat, h: nat, alias: Option<nat>, zonePtr: nat)
    requires Proper(a) && q == Absolute(a) && ZonesText(zones)
    ensures !found ==> forall i, j | 0 <= i < |zones| && 0 <= j < |zones[i].hosts| ::
      !Named(a, zones[i].name, zones[i].hosts[j])
    ensures found ==> z < |zones| && h < |zones[z].hosts|
    ensures found ==> Named(a, zones[z].name, zones[z].hosts[h])
    ensures found ==> forall i, j | 0 <= i <= z && 0 <= j < |zones[i].hosts| && (i < z || j < h) ::
      !Named(a, zones[i].name, zones[i].hosts[j])
    ensures found ==> (alias == None <==> Matches(a, zones[z].hosts[h].cname, zones[z].name))
    ensures found && alias.Some? ==> alias.value < |zones[z].hosts[h].aliases|
    ensures found && alias.Some? ==> Matches(a, zones[z].hosts[h].aliases[alias.value], zones[z].name)
    ensures found ==> zonePtr == 0 || ZoneAt(a, zones[z].name, zonePtr)
  {
    hide Named, Matches, ZoneAt, Absolute;
    found, z, h, alias, zonePtr := false, 0, 0, None, 0;
    while z < |zones|
      invariant z <= |zones| && forall i, j | 0 <= i < z && 0 <= j < |zones[i].hosts| ::
        !Named(a, zones[i].name, zones[i].hosts[j])
    {
      h := 0;
      while h < |zones[z].hosts|
        invariant h <= |zones[z].hosts| && forall j | 0 <= j < h :: !Named(a, zones[z].name, zones[z].hosts[j])
      {
        found, alias, zonePtr := MatchHost(q, zones[z].name, zones[z].hosts[h], a);
        if found {
          return;
        }
        h := h + 1;
      }
      z := z + 1;
    }
    found := false;
  }
}
