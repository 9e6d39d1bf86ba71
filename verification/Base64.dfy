/**
 The Base64 codec of the mail server (section 4 of RFC 4648), as it is called: from one
 buffer into another, or back into the buffer it reads.
 */
module Base64 {
  import opened Common

  const EQUALS: byte := 61
  const PLUS: byte := 43
  const SPACE: byte := 32

  /** The character of a six-bit digit. */
  function Symbol(d: int): byte
    requires 0 <= d < 64
  {
    if d < 26 then 65 + d
    else if d < 52 then 97 + d - 26
    else if d < 62 then 48 + d - 52
    else if d == 62 then 43 else 47
  }

  /** The digit of a character, or -1. */
  function Digit(c: byte): (d: int)
    ensures -1 <= d < 64
    ensures 0 <= d ==> Symbol(d) == c
  {
    if 65 <= c <= 90 then c - 65
    else if 97 <= c <= 122 then c - 97 + 26
    else if 48 <= c <= 57 then c - 48 + 52
    else if c == 43 then 62
    else if c == 47 then 63
    else -1
  }

  /** The alphabet of section 4 of RFC 4648, in order. */
  const UPPER: string := "ABCDEFGHIJKLMNOPQRSTUVWXYZ"
  const LOWER: string := "abcdefghijklmnopqrstuvwxyz"
  const FIGURES: string := "0123456789"
  const ALPHABET: string := UPPER + LOWER + FIGURES + "+/"

  /** A digit's character is the one at its place in the alphabet; other characters have no digit. */
  lemma SymbolIsAlphabet(d: int)
    requires 0 <= d < 64
    ensures |ALPHABET| == 64 && Symbol(d) == ALPHABET[d] as int && Digit(Symbol(d)) == d
  {
    Letters(if d < 26 then d else if d < 52 then d - 26 else 0);
    Figures(if 52 <= d < 62 then d - 52 else 0);
    Place(UPPER, LOWER, FIGURES, "+/", d);
  }

  lemma Letters(d: nat)
    requires d < 26
    ensures |UPPER| == |LOWER| == 26 && UPPER[d] as int == 65 + d && LOWER[d] as int == 97 + d
  {
  }

  lemma Figures(d: nat)
    requires d < 10
    ensures |FIGURES| == 10 && FIGURES[d] as int == 48 + d
  {
  }

  lemma Place(a: string, b: string, c: string, e: string, d: nat)
    requires |a| == |b| == 26 && |c| == 10 && |e| == 2 && d < 64
    ensures |a + b + c + e| == 64
    ensures (a + b + c + e)[d]
      == if d < 26 then a[d] else if d < 52 then b[d - 26] else if d < 62 then c[d - 52] else e[d - 62]
  {
  }

  lemma DigitIsPlace(c: byte)
    ensures Digit(c) == -1 <==> forall d | 0 <= d < 64 :: Symbol(d) != c
  {
    if Digit(c) != -1 { assert Symbol(Digit(c)) == c; }
    forall d | 0 <= d < 64 && Symbol(d) == c ensures Digit(c) == d { }
  }

  // ----------------------------------------------------------------- encoding

  /** Three octets; a shift and a mask is a quotient and a remainder here. */
  function Quad(a: byte, b: byte, c: byte): (q: seq<byte>)
    ensures |q| == 4
  {
    [Symbol(a / 4), Symbol(a % 4 * 16 + b / 16), Symbol(b % 16 * 4 + c / 64), Symbol(c % 64)]
  }

  function Encoded(s: seq<byte>): (r: seq<byte>)
    ensures |r| == (|s| + 2) / 3 * 4
  {
    if |s| >= 3 then Quad(s[0], s[1], s[2]) + Encoded(s[3..])
    else if |s| == 2 then [Symbol(s[0] / 4), Symbol(s[0] % 4 * 16 + s[1] / 16), Symbol(s[1] % 16 * 4), EQUALS]
    else if |s| == 1 then [Symbol(s[0] / 4), Symbol(s[0] % 4 * 16), EQUALS, EQUALS]
    else []
  }

  datatype Code = OK | FAIL | BUFOVER

  method Encode(input: array<byte>, inlen: nat, out: array<byte>, outmax: nat) returns (code: Code, outlen: nat)
    requires inlen <= input.Length && outmax <= out.Length && input != out
    modifies out
    ensures outlen == (inlen + 2) / 3 * 4
    ensures code == if outmax < outlen then BUFOVER else OK
    ensures code.BUFOVER? ==> out[..] == old(out[..])
    ensures code.OK? ==> out[..outlen] == Encoded(input[..inlen]) && (outlen < outmax ==> out[outlen] == 0)
  {
    hide Encoded, Quad;
    outlen := (inlen + 2) / 3 * 4;
    NothingLeft();
    if outmax < outlen {
      return BUFOVER, outlen;
    }
    code := OK;
    var i, o := 0, 0;
    while 3 <= inlen - i
      invariant i <= inlen && 3 * o == 4 * i && i % 3 == 0
      invariant out[..o] + Encoded(input[i..inlen]) == Encoded(input[..inlen])
    {
      EncodedStep(input[i..inlen], out[..o]);
      ghost var done := out[..o];
      assert input[i..inlen][3..] == input[i + 3..inlen];
      WriteQuad(input[i], input[i + 1], input[i + 2], out, o);
      assert out[..o + 4] == done + Quad(input[i], input[i + 1], input[i + 2]);
      i, o := i + 3, o + 4;
    }
    if 0 < inlen - i {
      ghost var done := out[..o];
      WriteTail(input, i, inlen, out, o);
      assert out[..o + 4] == done + Encoded(input[i..inlen]);
      o := o + 4;
    }
    if outlen < outmax {
      out[o] := 0;
    }
  }

  lemma NothingLeft()
    ensures Encoded([]) == []
  {
  }

  method WriteQuad(a: byte, b: byte, c: byte, out: array<byte>, at: nat)
    requires at + 4 <= out.Length
    modifies out
    ensures out[at..at + 4] == Quad(a, b, c)
    ensures forall k | 0 <= k < out.Length && (k < at || at + 4 <= k) :: out[k] == old(out[k])
  {
    hide Symbol;
    out[at] := Symbol(a / 4);
    out[at + 1] := Symbol(a % 4 * 16 + b / 16);
    out[at + 2] := Symbol(b % 16 * 4 + c / 64);
    out[at + 3] := Symbol(c % 64);
  }

  /** One or two octets left over, filled up with '='. */
  method WriteTail(input: array<byte>, i: nat, inlen: nat, out: array<byte>, at: nat)
    requires i < inlen <= input.Length && inlen < i + 3 && at + 4 <= out.Length && input != out
    modifies out
    ensures out[at..at + 4] == Encoded(input[i..inlen])
    ensures forall k | 0 <= k < out.Length && (k < at || at + 4 <= k) :: out[k] == old(out[k])
  {
    hide Symbol;
    out[at] := Symbol(input[i] / 4);
    var oval := input[i] % 4 * 16;
    if 1 < inlen - i {
      oval := oval + input[i + 1] / 16;
    }
    out[at + 1] := Symbol(oval);
    out[at + 2] := if inlen - i < 2 then EQUALS else Symbol(input[i + 1] % 16 * 4);
    out[at + 3] := EQUALS;
  }

  lemma Regrouped(a: seq<byte>, b: seq<byte>, c: seq<byte>)
    ensures a + (b + c) == (a + b) + c
  {
  }

  lemma EncodedStep(s: seq<byte>, done: seq<byte>)
    requires 3 <= |s|
    ensures done + Encoded(s) == (done + Quad(s[0], s[1], s[2])) + Encoded(s[3..])
  {
    hide Quad, Symbol;
    Regrouped(done, Quad(s[0], s[1], s[2]), Encoded(s[3..]));
  }

  // ----------------------------------------------------------------- decoding

  /** A four-character group: one octet if the third is '=', two if only the fourth is. */
  function Group(c1: byte, c2: byte, c3: byte, c4: byte): (g: Option<seq<byte>>)
    ensures g.Some? ==> 1 <= |g.value| <= 3
  {
    var d1, d2, d3, d4 := Digit(c1), Digit(c2), Digit(c3), Digit(c4);
    if d1 == -1 || d2 == -1 || (c3 != EQUALS && d3 == -1) || (c4 != EQUALS && d4 == -1) then None
    else if c3 == EQUALS then Some([d1 * 4 + d2 / 16])
    else if c4 == EQUALS then Some([d1 * 4 + d2 / 16, d2 % 16 * 16 + d3 / 4])
    else Some([d1 * 4 + d2 / 16, d2 % 16 * 16 + d3 / 4, d3 % 4 * 64 + d4])
  }

  /** All whole groups; up to three characters left over at the end are not looked at. */
  function Groups(s: seq<byte>): (r: Option<seq<byte>>)
    ensures r.Some? ==> |r.value| <= |s| / 4 * 3
  {
    if |s| < 4 then Some([])
    else
      match Group(s[0], s[1], s[2], s[3])
      case None => None
      case Some(g) =>
        match Groups(s[4..])
        case None => None
        case Some(r) => Some(g + r)
  }

  /** The input without the prefix "+ " of a challenge line. */
  function Body(s: seq<byte>): seq<byte> {
    if 2 <= |s| && s[0] == PLUS && s[1] == SPACE then s[2..] else s
  }

  /** What is decoded from `s` if `next` is the character after it in the buffer. */
  function Decoded(s: seq<byte>, next: byte): Option<seq<byte>> {
    var body := Body(s);
    if (body + [next])[0] == 0 then None else Groups(body)
  }

  /** What a run of the loop adds to the octets already written. */
  function Appended(done: seq<byte>, more: Option<seq<byte>>): Option<seq<byte>> {
    if more.Some? then Some(done + more.value) else None
  }

  lemma GroupsStep(s: seq<byte>, done: seq<byte>)
    requires 4 <= |s|
    ensures var g := Group(s[0], s[1], s[2], s[3]);
      && (g == None ==> Groups(s) == None)
      && Appended(done, Groups(s)) == if g == None then None else Appended(done + g.value, Groups(s[4..]))
  {
    var g := Group(s[0], s[1], s[2], s[3]);
    if g.Some? && Groups(s[4..]).Some? {
      assert done + (g.value + Groups(s[4..]).value) == done + g.value + Groups(s[4..]).value;
    }
  }

  lemma NoGroups(s: seq<byte>)
    ensures Appended([], Groups(s)) == Groups(s)
    ensures |s| < 4 ==> Groups(s) == Some([])
  {
    hide Group;
    if Groups(s).Some? { assert [] + Groups(s).value == Groups(s).value; }
  }

  lemma LastGroups(done: seq<byte>, s: seq<byte>)
    requires |s| < 4
    ensures Appended(done, Groups(s)) == Some(done)
  {
    assert done + [] == done;
  }

  /** The body of the decoding loop, once its four characters are read. */
  method WriteGroup(c1: byte, c2: byte, c3: byte, c4: byte, out: array<byte>, at: nat) returns (ok: bool, n: nat)
    requires at + 3 <= out.Length
    modifies out
    ensures var g := Group(c1, c2, c3, c4);
      && ok == g.Some?
      && (ok ==> n == |g.value| && out[at..at + n] == g.value)
      && forall k | 0 <= k < out.Length && (!ok || k < at || at + n <= k) :: out[k] == old(out[k])
  {
    if Digit(c1) == -1 || Digit(c2) == -1 {
      return false, 0;
    }
    if (c3 != EQUALS && Digit(c3) == -1) || (c4 != EQUALS && Digit(c4) == -1) {
      return false, 0;
    }
    out[at] := Digit(c1) * 4 + Digit(c2) / 16;
    n := 1;
    if c3 != EQUALS {
      out[at + 1] := Digit(c2) % 16 * 16 + Digit(c3) / 4;
      n := 2;
      if c4 != EQUALS {
        out[at + 2] := Digit(c3) % 4 * 64 + Digit(c4);
        n := 3;
      }
    }
    ok := true;
  }

  /** The output buffer may be the input buffer: what is still to be read is never overwritten. */
  method Decode(input: array<byte>, inlen: nat, out: array<byte>) returns (code: Code, outlen: nat)
    requires inlen < input.Length && inlen / 4 * 3 < out.Length
    modifies out
    ensures var r := Decoded(old(input[..inlen]), old(input[inlen]));
      && code == (if r == None then FAIL else OK)
      && (r.Some? ==> outlen == |r.value| < out.Length && out[..outlen] == r.value && out[outlen] == 0)
  {
    hide Groups;
    var start := 0;
    if 2 <= inlen && input[0] == PLUS && input[1] == SPACE {
      start := 2;
    }
    assert Body(input[..inlen]) == input[start..inlen];
    if input[start] == 0 {
      return FAIL, 0;
    }
    code, outlen := DecodeGroups(input, start, inlen, out);
  }

  /** The loop, and the zero at the end. */
  method DecodeGroups(input: array<byte>, start: nat, inlen: nat, out: array<byte>) returns (code: Code, outlen: nat)
    requires start <= inlen < input.Length && inlen / 4 * 3 < out.Length
    modifies out
    ensures var r := Groups(old(input[start..inlen]));
      && code == (if r == None then FAIL else OK)
      && (r.Some? ==> outlen == |r.value| < out.Length && out[..outlen] == r.value && out[outlen] == 0)
  {
    hide Group, Groups, Appended;
    var i := start;
    outlen := 0;
    ghost var done: seq<byte>, rest := [], input[start..inlen];
    NoGroups(rest);
    for lup := 0 to (inlen - start) / 4
      invariant i == start + 4 * lup && i + |rest| == inlen && outlen == |done| <= 3 * lup
      invariant out[..outlen] == done && input[i..inlen] == rest
      invariant Appended(done, Groups(rest)) == Groups(old(input[start..inlen]))
    {
      GroupsStep(rest, done);
      ReadAt(input, i, inlen);
      ghost var ahead := input[i + 4..inlen];
      assert ahead == input[i..inlen][4..];
      var ok, n := WriteGroup(input[i], input[i + 1], input[i + 2], input[i + 3], out, outlen);
      if !ok {
        return FAIL, 0;
      }
      ghost var g := Group(rest[0], rest[1], rest[2], rest[3]).value;
      assert out[..outlen + n] == done + g;
      assert input[i + 4..inlen] == ahead;
      done, rest, outlen, i := done + g, rest[4..], outlen + n, i + 4;
    }
    LastGroups(done, rest);
    out[outlen] := 0;
    assert out[..outlen] == done;
    code := OK;
  }

  lemma ReadAt(input: array<byte>, i: nat, inlen: nat)
    requires i + 4 <= inlen <= input.Length
    ensures forall k | 0 <= k < 4 :: input[i..inlen][k] == input[i + k]
  {
  }

  // ---------------------------------------------------------------- round trip

  lemma DigitOfSymbol(d: int)
    requires 0 <= d < 64
    ensures Digit(Symbol(d)) == d && Symbol(d) != EQUALS && Symbol(d) != 0 && Symbol(d) != SPACE
  {
  }

  /** Three octets are one number of 24 bits, and the group its four digits to the base 64. */
  lemma QuadIsDigits(a: byte, b: byte, c: byte)
    ensures var n := a * 0x1_0000 + b * 0x100 + c;
      Quad(a, b, c) == [Symbol(n / 64 / 64 / 64), Symbol(n / 64 / 64 % 64), Symbol(n / 64 % 64), Symbol(n % 64)]
  {
    hide Symbol;
    var n := a * 0x1_0000 + b * 0x100 + c;
    var m := a * 1024 + b * 4 + c / 64;
    var k := a * 16 + b / 16;
    DivRem(n, m, c % 64);
    DivRem(m, k, b % 16 * 4 + c / 64);
    DivRem(k, a / 4, a % 4 * 16 + b / 16);
  }

  lemma DivRem(n: nat, q: nat, r: nat)
    requires n == 64 * q + r && r < 64
    ensures n / 64 == q && n % 64 == r
  {
  }

  /** A digit made of the low bits of one octet and the high bits of the next comes apart again. */
  lemma Joined(a: byte, high: nat, low: nat, size: nat)
    requires (low == 4 && size == 16) || (low == 16 && size == 4)
    requires high < size
    ensures (a % low * size + high) / size == a % low && (a % low * size + high) % size == high
    ensures a / low * low + a % low == a && a % low * size + high < 64
  {
  }

  lemma GroupOfQuad(a: byte, b: byte, c: byte)
    ensures var q := Quad(a, b, c); Group(q[0], q[1], q[2], q[3]) == Some([a, b, c])
  {
    hide Symbol, Digit;
    Joined(a, b / 16, 4, 16);
    Joined(b, c / 64, 16, 4);
    DigitOfSymbol(a / 4);
    DigitOfSymbol(a % 4 * 16 + b / 16);
    DigitOfSymbol(b % 16 * 4 + c / 64);
    DigitOfSymbol(c % 64);
  }

  lemma GroupOfTwo(a: byte, b: byte)
    ensures Group(Symbol(a / 4), Symbol(a % 4 * 16 + b / 16), Symbol(b % 16 * 4), EQUALS) == Some([a, b])
  {
    hide Symbol, Digit;
    Joined(a, b / 16, 4, 16);
    DigitOfSymbol(a / 4);
    DigitOfSymbol(a % 4 * 16 + b / 16);
    DigitOfSymbol(b % 16 * 4);
  }

  lemma GroupOfOne(a: byte)
    ensures Group(Symbol(a / 4), Symbol(a % 4 * 16), EQUALS, EQUALS) == Some([a])
  {
    DigitOfSymbol(a / 4);
    DigitOfSymbol(a % 4 * 16);
  }

  lemma {:induction false} GroupsOfEncoded(s: seq<byte>)
    ensures Groups(Encoded(s)) == Some(s)
  {
    hide Group, Symbol;
    var e := Encoded(s);
    if |s| >= 3 {
      GroupOfQuad(s[0], s[1], s[2]);
      GroupsOfEncoded(s[3..]);
      assert e[4..] == Encoded(s[3..]);
      assert s == [s[0], s[1], s[2]] + s[3..];
    } else if |s| == 2 {
      GroupOfTwo(s[0], s[1]);
      assert e[4..] == [] && s == [s[0], s[1]] + [];
    } else if |s| == 1 {
      GroupOfOne(s[0]);
      assert e[4..] == [] && s == [s[0]] + [];
    }
  }

  /** Decoding undoes encoding for every octet string but the empty one, which it refuses. */
  lemma RoundTrip(s: seq<byte>)
    ensures Decoded(Encoded(s), 0) == if s == [] then None else Some(s)
  {
    hide Groups;
    var e := Encoded(s);
    if s != [] {
      FirstSymbols(s);
      GroupsOfEncoded(s);
      assert Body(e) == e;
      assert (e + [0])[0] == e[0];
    }
  }

  lemma FirstSymbols(s: seq<byte>)
    requires s != []
    ensures var e := Encoded(s); |e| >= 4 && e[0] != 0 && e[1] != SPACE
  {
    DigitOfSymbol(s[0] / 4);
    DigitOfSymbol(s[0] % 4 * 16 + (if |s| > 1 then s[1] / 16 else 0));
  }

  /** What is encoded in one buffer comes back from the other, or from the same. */
  method EncodeThenDecode(input: array<byte>, inlen: nat, line: array<byte>, out: array<byte>) returns (code: Code)
    requires 0 < inlen <= input.Length && input != line && input != out
    requires (inlen + 2) / 3 * 4 < line.Length && (inlen + 2) / 3 * 3 < out.Length
    modifies line, out
    ensures code == OK && out[..inlen] == input[..inlen]
  {
    var outlen, n;
    code, outlen := Encode(input, inlen, line, line.Length);
    RoundTrip(input[..inlen]);
    code, n := Decode(line, outlen, out);
  }
}
