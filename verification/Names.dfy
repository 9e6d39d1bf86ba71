/**
 Domain names between their text form and their wire form (sections 3.1 and 4.1.4 of RFC
 1035): two encoders, one from the left and one from the right, and the decoder.
 */
module Names {
  import opened Common

  const DOT: byte := 46
  const AT: byte := 64
  /** What stands for the name of the zone at the end of a relative name. */
  const MARK: byte := 0xC0

  type Label = seq<byte>

  // ---------------------------------------------------------------- the encoders

  /** How many octets there are from place `k` to the next dot, or to the end. */
  function Run(s: seq<byte>, k: nat): (n: nat)
    requires k <= |s|
    ensures k + n <= |s| && (k + n < |s| ==> s[k + n] == DOT)
    ensures forall j | k <= j < k + n :: s[j] != DOT
    decreases |s| - k
  {
    if k == |s| || s[k] == DOT then 0 else 1 + Run(s, k + 1)
  }

  /** A label starts after place `k` of the encoded name: at the front, and where a dot was. */
  predicate Opens(s: seq<byte>, k: nat)
    requires k <= |s|
  {
    k == 0 || s[k - 1] == DOT
  }

  /** Every dot, and the front, become the length of the label that follows. */
  function Coded(s: seq<byte>): (r: seq<byte>)
    requires |s| < 0x100
    ensures |r| == |s| + 2
  {
    seq(|s| + 2, k requires 0 <= k < |s| + 2 =>
      if k == |s| + 1 then 0 else if Opens(s, k) then Run(s, k) else s[k - 1])
  }

  /** The same, but an empty last label becomes the mark of the zone. */
  function Marked(s: seq<byte>): (r: seq<byte>)
    requires |s| < 0x100
  {
    if Opens(s, |s|) then Coded(s)[|s| := MARK] else Coded(s)
  }

  lemma {:induction false} RunIs(s: seq<byte>, i: nat, j: nat)
    requires i <= j <= |s| && (j < |s| ==> s[j] == DOT)
    requires forall k | i <= k < j :: s[k] != DOT
    ensures Run(s, i) == j - i
    decreases j - i
  {
    if i < j { RunIs(s, i + 1, j); }
  }

  lemma CodedAt(s: seq<byte>, k: nat)
    requires |s| < 0x100 && k < |s| + 2
    ensures Coded(s)[k] == if k == |s| + 1 then 0 else if Opens(s, k) then Run(s, k) else s[k - 1]
  {
  }

  /** rcpy_string: from the left, `i` the place of the length to come. */
  method CopyName(src: array<byte>, n: nat, dst: array<byte>)
    requires n < src.Length && src[n] == 0 && forall k | 0 <= k < n :: src[k] != 0
    requires n + 2 <= dst.Length <= 0x100 && src != dst
    modifies dst
    ensures dst[..n + 2] == Marked(src[..n])
  {
    hide Coded, Run;
    CopyString(src, n, dst);
    ghost var s := src[..n];
    var i, j := 0, 1;
    while dst[j] != 0
      invariant 0 <= i < j <= n + 1
      invariant Opens(s, i) && forall m | i <= m < j - 1 :: s[m] != DOT
      invariant forall m | 0 <= m < i :: dst[m] == Coded(s)[m]
      invariant forall m | i < m < j :: dst[m] == Coded(s)[m]
      invariant forall m | j <= m <= n + 1 :: dst[m] == (s + [0])[m - 1]
      decreases n + 1 - j
    {
      if dst[j] == DOT {
        RunIs(s, i, j - 1);
        CodedAt(s, i);
        dst[i] := j - i - 1;
        i := j;
      } else {
        CodedAt(s, j);
      }
      j := j + 1;
    }
    RunIs(s, i, n);
    CodedAt(s, i);
    CodedAt(s, n + 1);
    dst[i] := j - i - 1;
    if dst[i] == 0 {
      dst[i] := MARK;
    }
    assert i == n <==> Opens(s, n);
    assert forall m | 0 <= m < n + 2 :: dst[m] == Marked(s)[m];
  }

  /** strcpy, one octet further on. */
  method CopyString(src: array<byte>, n: nat, dst: array<byte>)
    requires n < src.Length && src[n] == 0 && n + 2 <= dst.Length && src != dst
    modifies dst
    ensures forall m | 1 <= m <= n + 1 :: dst[m] == (src[..n] + [0])[m - 1]
  {
    for k := 0 to n + 1
      invariant forall m | 1 <= m <= k :: dst[m] == src[m - 1]
    {
      dst[k + 1] := src[k];
    }
  }

  /** The encoder of the spooler; the text stands in the packet behind an '@', and is read backwards. */
  method EncodeInPlace(netbuf: array<byte>, at: nat, n: nat)
    requires at + n + 2 <= netbuf.Length && n < 0x100
    requires netbuf[at] == AT && netbuf[at + n + 1] == 0 && forall k | at < k <= at + n :: netbuf[k] != AT
    modifies netbuf
    ensures netbuf[at..at + n + 2] == Coded(old(netbuf[at + 1..at + n + 1]))
    ensures netbuf[..at] == old(netbuf[..at]) && netbuf[at + n + 2..] == old(netbuf[at + n + 2..])
  {
    hide Coded;
    ghost var s := netbuf[at + 1..at + n + 1];
    var i, j := at + n, 0;
    CodedAt(s, n + 1);
    while netbuf[i] != AT
      invariant at <= i <= at + n && i - at + j <= n
      invariant j == Run(s, i - at)
      invariant netbuf[at] == AT && forall k | at < k <= i :: netbuf[k] == s[k - at - 1] == old(netbuf[k])
      invariant forall k | i < k < at + n + 2 :: netbuf[k] == Coded(s)[k - at]
      invariant netbuf[..at] == old(netbuf[..at]) && netbuf[at + n + 2..] == old(netbuf[at + n + 2..])
      decreases i
    {
      CodedAt(s, i - at);
      if netbuf[i] == DOT {
        netbuf[i] := j;
        j := 0;
      } else {
        j := j + 1;
      }
      i := i - 1;
    }
    CodedAt(s, 0);
    netbuf[i] := j;
  }

  /** The two encoders agree on a name exactly if it is not empty and does not end in a dot. */
  lemma EncodersAgree(s: seq<byte>)
    requires |s| < 0x100
    ensures Coded(s) == Marked(s) <==> (s != [] && s[|s| - 1] != DOT)
  {
    if Opens(s, |s|) {
      CodedAt(s, |s|);
      assert Marked(s)[|s|] == MARK;
    }
  }

  // --------------------------------------------------------------------- labels

  function Split(s: seq<byte>): (labels: seq<Label>)
    ensures labels != []
    decreases |s|
  {
    var d := Run(s, 0);
    if d == |s| then [s] else [s[..d]] + Split(s[d + 1..])
  }

  function Joined(labels: seq<Label>): seq<byte> {
    if labels == [] then []
    else if |labels| == 1 then labels[0]
    else labels[0] + [DOT] + Joined(labels[1..])
  }

  /** Labels with their lengths in front of them. */
  function Wire(labels: seq<Label>): seq<byte>
    requires forall l | l in labels :: |l| < 0x100
  {
    if labels == [] then [] else [|labels[0]|] + labels[0] + Wire(labels[1..])
  }

  lemma {:induction false} JoinedSplit(s: seq<byte>)
    ensures Joined(Split(s)) == s
    decreases |s|
  {
    var d := Run(s, 0);
    if d < |s| {
      JoinedSplit(s[d + 1..]);
      assert Split(s)[1..] == Split(s[d + 1..]);
      assert s == s[..d] + [DOT] + s[d + 1..];
    }
  }

  lemma {:induction false} SplitShort(s: seq<byte>)
    ensures forall l | l in Split(s) :: |l| <= |s|
    decreases |s|
  {
    var d := Run(s, 0);
    if d < |s| { SplitShort(s[d + 1..]); }
  }

  lemma {:induction false} RunShifts(s: seq<byte>, d: nat, k: nat)
    requires d + k <= |s|
    ensures Run(s, d + k) == Run(s[d..], k)
  {
    var n := Run(s[d..], k);
    assert forall j | d + k <= j < d + k + n :: s[j] == s[d..][j - d];
    if d + k + n < |s| { assert s[d + k + n] == s[d..][k + n]; }
    RunIs(s, d + k, d + k + n);
  }

  /** An encoded name is its labels, each behind its length, and a zero. */
  lemma {:induction false} CodedIsWire(s: seq<byte>)
    requires |s| < 0x100
    ensures (forall l | l in Split(s) :: |l| < 0x100) && Coded(s) == Wire(Split(s)) + [0]
    decreases |s|
  {
    SplitShort(s);
    var d := Run(s, 0);
    if d < |s| {
      var rest := s[d + 1..];
      CodedIsWire(rest);
      FirstLabel(s);
      assert Split(s)[1..] == Split(rest) && Split(s)[0] == s[..d];
      assert [d as byte] + s[..d] + (Wire(Split(rest)) + [0]) == ([d as byte] + s[..d] + Wire(Split(rest))) + [0];
    } else {
      assert Wire(Split(s)) == [d as byte] + s;
      OneLabel(s);
    }
  }

  lemma Undotted(s: seq<byte>, k: nat)
    requires 0 < k <= Run(s, 0)
    ensures !Opens(s, k)
  {
  }

  lemma OneLabel(s: seq<byte>)
    requires |s| < 0x100 && Run(s, 0) == |s|
    ensures Coded(s) == [|s| as byte] + s + [0]
  {
    hide Coded, Run, Opens;
    forall k | 0 < k <= |s| ensures Coded(s)[k] == s[k - 1] {
      CodedAt(s, k);
      Undotted(s, k);
    }
    CodedAt(s, 0);
    CodedAt(s, |s| + 1);
    FrontIsOpen(s);
    Framed(s, Coded(s));
  }

  lemma FrontIsOpen(s: seq<byte>)
    ensures Opens(s, 0)
  {
  }

  lemma Framed(s: seq<byte>, r: seq<byte>)
    requires |s| < 0x100 && |r| == |s| + 2 && r[0] == |s| && r[|s| + 1] == 0
    requires forall k | 0 < k <= |s| :: r[k] == s[k - 1]
    ensures r == [|s| as byte] + s + [0]
  {
    assert r[1..|s| + 1] == s;
    assert r == [r[0]] + r[1..|s| + 1] + [r[|s| + 1]];
  }

  lemma FirstLabel(s: seq<byte>)
    requires |s| < 0x100 && Run(s, 0) < |s|
    ensures var d := Run(s, 0); Coded(s) == [d as byte] + s[..d] + Coded(s[d + 1..])
  {
    hide Coded, Run, Opens;
    var d := Run(s, 0);
    var rest := s[d + 1..];
    CodedAt(s, 0);
    FrontIsOpen(s);
    forall k | 0 < k <= d ensures Coded(s)[k] == s[k - 1] {
      CodedAt(s, k);
      Undotted(s, k);
    }
    forall k | d < k < |s| + 2 ensures Coded(s)[k] == Coded(rest)[k - d - 1] { AfterFirst(s, d, k); }
    Glued(d, s[..d], Coded(rest), Coded(s));
  }

  lemma AfterFirst(s: seq<byte>, d: nat, k: nat)
    requires |s| < 0x100 && d < |s| && s[d] == DOT && d < k < |s| + 2
    ensures Coded(s)[k] == Coded(s[d + 1..])[k - d - 1]
  {
    hide Coded, Run;
    CodedAt(s, k);
    CodedAt(s[d + 1..], k - d - 1);
    if k <= |s| { RunShifts(s, d + 1, k - d - 1); }
  }

  lemma Glued(d: byte, head: seq<byte>, tail: seq<byte>, r: seq<byte>)
    requires |head| == d && |r| == 1 + d + |tail| && r[0] == d
    requires forall k | 0 < k <= d :: r[k] == head[k - 1]
    requires forall k | d < k < |r| :: r[k] == tail[k - d - 1]
    ensures r == [d] + head + tail
  {
    assert r[1..1 + d] == head && r[1 + d..] == tail;
    assert r == [r[0]] + r[1..1 + d] + r[1 + d..];
  }

  /** A name that ends in a dot: its labels, and the mark where the last, empty one would be. */
  lemma MarkedIsRelative(s: seq<byte>)
    requires |s| < 0x100 && Opens(s, |s|)
    ensures (forall l | l in Split(s) :: |l| < 0x100)
    ensures Marked(s) == Wire(Split(s)[..|Split(s)| - 1]) + [MARK, 0] && Split(s)[|Split(s)| - 1] == []
  {
    hide Coded, Run, Split;
    CodedIsWire(s);
    LastEmpty(s);
    CodedAt(s, |s|);
    var labels := Split(s);
    var init := labels[..|labels| - 1];
    assert labels == init + [[]];
    WireConcat(init, [[]]);
    WireOfEmpty();
    assert Coded(s) == Wire(init) + [0, 0];
    assert |Wire(init)| == |s|;
  }

  lemma WireOfEmpty()
    ensures Wire([[]]) == [0]
  {
  }

  lemma {:induction false} LastEmpty(s: seq<byte>)
    requires Opens(s, |s|)
    ensures Split(s)[|Split(s)| - 1] == []
    decreases |s|
  {
    hide Run, Opens;
    var d := Run(s, 0);
    if d < |s| {
      RestOpens(s, d);
      LastEmpty(s[d + 1..]);
    } else if s != [] {
      Undotted(s, |s|);
    }
  }

  lemma RestOpens(s: seq<byte>, d: nat)
    requires Opens(s, |s|) && d < |s|
    ensures Opens(s[d + 1..], |s| - d - 1)
  {
    var rest := s[d + 1..];
    if rest != [] { assert rest[|rest| - 1] == s[|s| - 1]; }
  }

  lemma {:induction false} WireConcat(a: seq<Label>, b: seq<Label>)
    requires forall l | l in a + b :: |l| < 0x100
    ensures (forall l | l in a :: |l| < 0x100) && (forall l | l in b :: |l| < 0x100)
    ensures Wire(a + b) == Wire(a) + Wire(b)
  {
    assert forall l | l in a :: l in a + b;
    assert forall l | l in b :: l in a + b;
    if a == [] {
      assert a + b == b;
    } else {
      assert (a + b)[1..] == a[1..] + b && (a + b)[0] == a[0];
      assert forall l | l in a[1..] + b :: l in a + b;
      WireConcat(a[1..], b);
    }
  }

  // -------------------------------------------------------------------- decoding

  /** Where the two octets of a compressed name point to. */
  function Target(pkt: seq<byte>, i: nat): nat
    requires i + 1 < |pkt| && MARK <= pkt[i]
  {
    (pkt[i] - MARK) * 0x100 + pkt[i + 1]
  }

  /** The name at place `i` ends inside the packet, after no more than so many pointers. */
  predicate Ends(pkt: seq<byte>, i: nat, hops: nat)
    decreases hops, |pkt| - i
  {
    i < |pkt| &&
    if MARK <= pkt[i] then i + 1 < |pkt| && 0 < hops && Ends(pkt, Target(pkt, i), hops - 1)
    else pkt[i] == 0 || (i + 1 + pkt[i] < |pkt| && Ends(pkt, i + 1 + pkt[i], hops))
  }

  /** The labels of the name at place `i`. */
  function LabelsAt(pkt: seq<byte>, i: nat, hops: nat): (labels: seq<Label>)
    requires Ends(pkt, i, hops)
    ensures forall l | l in labels :: 0 < |l| < 0x100
    decreases hops, |pkt| - i
  {
    if MARK <= pkt[i] then LabelsAt(pkt, Target(pkt, i), hops - 1)
    else if pkt[i] == 0 then []
    else [pkt[i + 1..i + 1 + pkt[i]]] + LabelsAt(pkt, i + 1 + pkt[i], hops)
  }

  /** Every label with a dot after it. */
  function Dotted(labels: seq<Label>): seq<byte> {
    if labels == [] then [] else labels[0] + [DOT] + Dotted(labels[1..])
  }

  lemma {:induction false} DottedIsJoined(labels: seq<Label>)
    requires labels != []
    ensures Dotted(labels) == Joined(labels) + [DOT]
  {
    if |labels| > 1 { DottedIsJoined(labels[1..]); }
  }

  /** The decoder of the spooler; `hops` bounds the pointers of a name that ends. */
  method DecodeName(netbuf: array<byte>, start: nat, ghost hops: nat, rname: array<byte>) returns (len: nat)
    requires Ends(netbuf[..], start, hops) && netbuf != rname
    requires |Dotted(LabelsAt(netbuf[..], start, hops))| < rname.Length == 0x100
    modifies rname
    ensures len < rname.Length && rname[len] == 0
    ensures rname[..len] == Joined(LabelsAt(netbuf[..], start, hops))
  {
    hide Joined, Dotted, Ends, LabelsAt;
    NoLabels();
    ghost var pkt, all := netbuf[..], LabelsAt(netbuf[..], start, hops);
    ghost var left: nat := hops;
    var i: nat, j: nat := start, 0;
    while true
      invariant Ends(pkt, i, left) && j <= |Dotted(all)|
      invariant rname[..j] + Dotted(LabelsAt(pkt, i, left)) == Dotted(all)
      decreases left, |pkt| - i
    {
      OneStep(pkt, i, left);
      if MARK <= netbuf[i] {
        left := left - 1;
        i := (netbuf[i] - MARK) * 0x100 + netbuf[i + 1];
      } else {
        var k := netbuf[i];
        if k == 0 {
          break;
        }
        OneMore(rname[..j], pkt, i, left);
        CopyLabel(netbuf, i + 1, k, rname, j);
        i, j := i + 1 + k, j + k + 1;
      }
    }
    assert rname[..j] == Dotted(all);
    if all != [] { DottedIsJoined(all); }
    if j != 0 {
      j := j - 1;
    }
    rname[j] := 0;
    len := j;
  }

  lemma NoLabels()
    ensures Joined([]) == Dotted([]) == []
  {
  }

  /** What the first octets of a name that ends say about it. */
  lemma OneStep(pkt: seq<byte>, i: nat, hops: nat)
    requires Ends(pkt, i, hops)
    ensures i < |pkt|
    ensures MARK <= pkt[i] ==> i + 1 < |pkt| && 0 < hops && Ends(pkt, Target(pkt, i), hops - 1)
    ensures MARK <= pkt[i] ==> LabelsAt(pkt, i, hops) == LabelsAt(pkt, Target(pkt, i), hops - 1)
    ensures pkt[i] == 0 ==> LabelsAt(pkt, i, hops) == []
  {
  }

  lemma OneMore(done: seq<byte>, pkt: seq<byte>, i: nat, hops: nat)
    requires Ends(pkt, i, hops) && 0 < pkt[i] < MARK
    ensures var next := i + 1 + pkt[i];
      && next < |pkt| && Ends(pkt, next, hops)
      && done + Dotted(LabelsAt(pkt, i, hops))
           == done + pkt[i + 1..next] + [DOT] + Dotted(LabelsAt(pkt, next, hops))
  {
    var labels := LabelsAt(pkt, i, hops);
    assert labels[1..] == LabelsAt(pkt, i + 1 + pkt[i], hops);
  }

  /** One label and the dot after it. */
  method CopyLabel(netbuf: array<byte>, i: nat, k: nat, rname: array<byte>, j: nat)
    requires i + k <= netbuf.Length && j + k < rname.Length && netbuf != rname
    modifies rname
    ensures rname[..j + k + 1] == old(rname[..j]) + netbuf[i..i + k] + [DOT]
  {
    for m := 0 to k
      invariant rname[..j + m] == old(rname[..j]) + netbuf[i..i + m]
    {
      rname[j + m] := netbuf[i + m];
      assert netbuf[i..i + m + 1] == netbuf[i..i + m] + [netbuf[i + m]];
      assert rname[..j + m + 1] == rname[..j + m] + [netbuf[i + m]];
    }
    rname[j + k] := DOT;
    assert rname[..j + k + 1] == rname[..j + k] + [DOT];
  }

  /** Labels that a name may have: neither empty nor mistaken for a pointer. */
  predicate Proper(labels: seq<Label>) {
    forall l | l in labels :: 1 <= |l| <= 63
  }

  lemma WireSplits(labels: seq<Label>)
    requires labels != [] && forall l | l in labels :: |l| < 0x100
    ensures var w, l := Wire(labels), |labels[0]|;
      |w| == 1 + l + |Wire(labels[1..])| && w[0] == l && w[1..1 + l] == labels[0] && w[1 + l..] == Wire(labels[1..])
  {
  }

  lemma ReadOne(pkt: seq<byte>, i: nat, l: Label, hops: nat)
    requires 1 <= |l| <= 63 && i + 1 + |l| <= |pkt| && pkt[i] == |l| && pkt[i + 1..i + 1 + |l|] == l
    ensures Ends(pkt, i, hops) <==> Ends(pkt, i + 1 + |l|, hops)
    ensures Ends(pkt, i, hops) ==> LabelsAt(pkt, i, hops) == [l] + LabelsAt(pkt, i + 1 + |l|, hops)
  {
  }

  lemma NoWire()
    ensures Wire([]) == []
  {
  }

  lemma ProperParts(labels: seq<Label>)
    requires Proper(labels) && labels != []
    ensures 1 <= |labels[0]| <= 63 && Proper(labels[1..])
    ensures (forall l | l in labels :: |l| < 0x100) && forall l | l in labels[1..] :: |l| < 0x100
  {
    assert labels[0] in labels;
    assert forall l | l in labels[1..] :: l in labels;
  }

  /** A slice of a slice. */
  lemma SliceOfSlice(pkt: seq<byte>, i: nat, w: seq<byte>, a: nat, b: nat)
    requires i + |w| <= |pkt| && pkt[i..i + |w|] == w && a <= b <= |w|
    ensures pkt[i + a..i + b] == w[a..b]
    ensures a < |w| ==> pkt[i + a] == w[a]
  {
    forall k | a <= k < b ensures pkt[i + k] == w[k] { assert w[k] == pkt[i..i + |w|][k]; }
    if a < |w| { assert pkt[i + a] == pkt[i..i + |w|][a]; }
  }

  /** Reading over labels in the packet, whatever comes after them. */
  lemma {:induction false} ReadLabels(pkt: seq<byte>, i: nat, labels: seq<Label>, hops: nat)
    requires Proper(labels)
    requires i + |Wire(labels)| <= |pkt| && pkt[i..i + |Wire(labels)|] == Wire(labels)
    ensures Ends(pkt, i, hops) <==> Ends(pkt, i + |Wire(labels)|, hops)
    ensures Ends(pkt, i, hops) ==>
      LabelsAt(pkt, i, hops) == labels + LabelsAt(pkt, i + |Wire(labels)|, hops)
    decreases |labels|
  {
    hide Ends, LabelsAt, Wire, Proper;
    if labels == [] {
      NoWire();
    } else {
      ProperParts(labels);
      var l, rest, w := labels[0], labels[1..], Wire(labels);
      WireSplits(labels);
      SliceOfSlice(pkt, i, w, 0, 1);
      SliceOfSlice(pkt, i, w, 1, 1 + |l|);
      SliceOfSlice(pkt, i, w, 1 + |l|, |w|);
      ReadOne(pkt, i, l, hops);
      ReadLabels(pkt, i + 1 + |l|, rest, hops);
      if Ends(pkt, i, hops) { Prepended(l, rest, LabelsAt(pkt, i + |w|, hops), labels); }
    }
  }

  lemma Prepended(l: Label, rest: seq<Label>, after: seq<Label>, labels: seq<Label>)
    requires labels != [] && labels[0] == l && labels[1..] == rest
    ensures [l] + (rest + after) == labels + after
  {
  }

  lemma OpenIsNotProper(s: seq<byte>)
    requires Opens(s, |s|)
    ensures !Proper(Split(s))
  {
    LastEmpty(s);
    assert Split(s)[|Split(s)| - 1] in Split(s);
  }

  /** Decoding undoes both encoders, for every name of proper labels. */
  lemma DecodeInverts(before: seq<byte>, s: seq<byte>, after: seq<byte>, hops: nat)
    requires |s| < 0x100 && Proper(Split(s))
    ensures Coded(s) == Marked(s)
    ensures var pkt := before + Coded(s) + after;
      Ends(pkt, |before|, hops) && Joined(LabelsAt(pkt, |before|, hops)) == s
  {
    hide Ends, LabelsAt, Coded, Marked, Split, Joined, Wire;
    EncodersAgree(s);
    if Opens(s, |s|) { OpenIsNotProper(s); }
    CodedIsWire(s);
    ReadWire(before, Split(s), after, hops);
    JoinedSplit(s);
  }

  lemma ReadWire(before: seq<byte>, labels: seq<Label>, after: seq<byte>, hops: nat)
    requires Proper(labels)
    ensures var pkt := before + (Wire(labels) + [0]) + after;
      Ends(pkt, |before|, hops) && LabelsAt(pkt, |before|, hops) == labels
  {
    hide Ends, LabelsAt, Wire;
    var pkt := before + (Wire(labels) + [0]) + after;
    AppendedZero(before, Wire(labels), after);
    ReadLabels(pkt, |before|, labels, hops);
    ReadZero(pkt, |before| + |Wire(labels)|, hops);
    assert labels + [] == labels;
  }

  lemma AppendedZero(before: seq<byte>, w: seq<byte>, after: seq<byte>)
    ensures var pkt := before + (w + [0]) + after;
      pkt[|before|..|before| + |w|] == w && pkt[|before| + |w|] == 0
  {
  }

  lemma ReadZero(pkt: seq<byte>, i: nat, hops: nat)
    requires i < |pkt| && pkt[i] == 0
    ensures Ends(pkt, i, hops) && LabelsAt(pkt, i, hops) == []
  {
  }
}
