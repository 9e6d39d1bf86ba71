/**
 What the actions of an update make of a number's octets, in terms of the numbers they are.
 */
module Arithmetic {
  import opened Common
  import opened Layout

  predicate Number(kind: Kind) {
    kind.UInt? || kind.Int? || kind.UInt16? || kind.Int16?
  }

  /** `v` is what the octets say as a signed number. */
  predicate TwosComplement(v: int, bytes: seq<byte>) {
    var m: int := Range(|bytes|);
    (v - Word(bytes)) % m == 0 && -m <= 2 * v < m
  }

  /** `q` is the quotient without what is behind the point: the remainder has the sign of `a`. */
  predicate TowardsZero(a: int, b: int, q: int) {
    var rest := a - q * b;
    && (0 <= a ==> 0 <= rest) && (a <= 0 ==> rest <= 0)
    && (0 < b ==> rest < b && -b < rest) && (b < 0 ==> rest < -b && b < rest)
  }

  /**
   What an action has to make of a number's octets; actions travel as 0 for none, 1 for
   setting, and 2 to 5 for adding, subtracting, multiplying and dividing.
   */
  ghost predicate Computed(kind: Kind, action: byte, was: seq<byte>, arg: seq<byte>, now: seq<byte>) {
    var m, a, b := Range(|was|), Word(was), Word(arg);
    && |now| == |was|
    && (action == 2 ==> Word(now) == (a + b) % m)
    && (action == 3 ==> Word(now) == (a - b) % m)
    && (action == 4 ==> Word(now) == (a * b) % m)
    && (action == 5 && b != 0 && (kind.UInt? || kind.UInt16?) ==> Word(now) * b <= a < Word(now) * b + b)
    && (action == 5 && b != 0 && (kind.Int? || kind.Int16?) ==> DividedSigned(was, arg, now))
    && (action == 1 ==> now == arg)
    && (action == 0 || action > 5 || (action == 5 && b == 0) ==> now == was)
  }

  ghost predicate DividedSigned(was: seq<byte>, arg: seq<byte>, now: seq<byte>) {
    forall a, b | TwosComplement(a, was) && TwosComplement(b, arg) ::
      b != 0 && exists q :: TowardsZero(a, b, q) && Word(now) == q % Range(|was|)
  }

  // ---------------------------------------------------------------- remainders

  lemma NoMultiple(d: int, m: int)
    requires -m < d * m < m
    ensures d == 0
  {
  }

  lemma SameRest(x: int, q: int, rest: int, m: int)
    requires 0 < m && x == q * m + rest && 0 <= rest < m
    ensures x % m == rest && x / m == q
  {
    var d := x / m - q;
    assert d * m == (x / m) * m - q * m;
    NoMultiple(d, m);
  }

  lemma ModShift(a: int, m: int, k: int)
    requires 0 < m
    ensures (a + k * m) % m == a % m
  {
    var q := a / m;
    assert (q + k) * m == q * m + k * m;
    SameRest(a + k * m, q + k, a % m, m);
  }

  lemma Products(a: int, b: int, m: int, i: int, j: int)
    ensures (a + i * m) * (b + j * m) == a * b + (a * j + i * b + i * m * j) * m
  {
    var x, y := i * m, j * m;
    assert (a + x) * (b + y) == a * b + a * y + x * b + x * y;
    assert a * y == a * j * m;
    assert x * b == i * b * m;
    assert x * y == i * m * j * m;
    assert (a * j + i * b + i * m * j) * m == a * j * m + i * b * m + i * m * j * m;
  }

  /** Signed or not, a sum, a difference and a product are the same octets. */
  lemma SignDoesNotMatter(a: int, b: int, m: int, i: int, j: int)
    requires 0 < m
    ensures (a + i * m + (b + j * m)) % m == (a + b) % m
    ensures (a + i * m - (b + j * m)) % m == (a - b) % m
    ensures ((a + i * m) * (b + j * m)) % m == (a * b) % m
  {
    assert (i + j) * m == i * m + j * m && (i - j) * m == i * m - j * m;
    ModShift(a + b, m, i + j);
    ModShift(a - b, m, i - j);
    Products(a, b, m, i, j);
    ModShift(a * b, m, a * j + i * b + i * m * j);
  }

  // ------------------------------------------------------------------- numbers

  lemma SignedIs(bytes: seq<byte>)
    ensures var v := Signed(Word(bytes), |bytes|);
      && TwosComplement(v, bytes)
      && (v == Word(bytes) || v == Word(bytes) - Range(|bytes|)) && Word(bytes) < Range(|bytes|)
      && (v == 0 <==> Word(bytes) == 0)
  {
    hide Word, Range, Bytes;
    BytesOfWord(bytes);
    var m: int := Range(|bytes|);
    SameRest(0, 0, 0, m);
    SameRest(-m, -1, 0, m);
  }

  /** There is one such number. */
  lemma SignedIsOnly(v: int, bytes: seq<byte>)
    requires TwosComplement(v, bytes)
    ensures v == Signed(Word(bytes), |bytes|)
  {
    hide Word, Range, Bytes, Signed;
    SignedIs(bytes);
    SameNumber(v, Signed(Word(bytes), |bytes|), Word(bytes), Range(|bytes|));
  }

  lemma SameNumber(v: int, w: int, x: int, m: int)
    requires 0 < m && (v - x) % m == 0 && (w - x) % m == 0 && -m <= 2 * v < m && -m <= 2 * w < m
    ensures v == w
  {
    var d, e := (v - x) / m, (w - x) / m;
    DivMod(v - x, m);
    DivMod(w - x, m);
    assert (d - e) * m == d * m - e * m;
    NoMultiple(d - e, m);
  }

  lemma WordOfRest(x: int, n: nat)
    ensures Word(Bytes(x % Range(n), n)) == x % Range(n)
  {
    WordOfBytes(x % Range(n), n);
  }

  lemma DivMod(a: int, b: int)
    requires 0 < b
    ensures a == (a / b) * b + a % b && 0 <= a % b < b && (0 <= a ==> 0 <= a / b)
  {
  }

  lemma Signs(q: int, d: int)
    ensures (-q) * d == -(q * d) && q * (-d) == -(q * d) && (-q) * (-d) == q * d
  {
  }

  lemma QuotientIs(a: int, b: int)
    requires b != 0
    ensures TowardsZero(a, b, Quotient(a, b))
  {
    var d: int := Abs(b);
    DivMod(Abs(a), d);
    Signs(Abs(a) / d, d);
  }

  lemma Grows(q: int, b: int)
    requires 0 <= q && 1 <= b
    ensures q <= q * b
  {
    assert q * b == q + q * (b - 1);
  }

  lemma SmallQuotient(a: int, b: int, m: int)
    requires 0 < b && 0 <= a < m
    ensures Quotient(a, b) == a / b && (a / b) % m == a / b && (a / b) * b <= a < (a / b) * b + b
  {
    DivMod(a, b);
    Grows(a / b, b);
    SameRest(a / b, 0, a / b, m);
  }

  // ------------------------------------------------------------------- actions

  lemma UnsignedComputed(action: byte, was: seq<byte>, arg: seq<byte>)
    requires |was| == |arg|
    ensures Computed(UInt, action, was, arg, Integer(action, was, arg, false)) || action == U_SET
  {
    hide Word, Range, Bytes, Quotient;
    var n: nat, a: int, b: int := |was|, Word(was), Word(arg);
    SignedIs(was);
    if action == U_ADD { WordOfRest(a + b, n); }
    else if action == U_SUB { WordOfRest(a - b, n); }
    else if action == U_MUL { WordOfRest(a * b, n); }
    else if action == U_DIV && b != 0 {
      SmallQuotient(a, b, Range(n));
      WordOfRest(Quotient(a, b), n);
    }
  }

  lemma SignedComputed(action: byte, was: seq<byte>, arg: seq<byte>)
    requires |was| == |arg|
    ensures Computed(Int, action, was, arg, Integer(action, was, arg, true)) || action == U_SET
  {
    hide Word, Range, Bytes, Quotient, Signed, TwosComplement, DividedSigned;
    SignedMod(was, arg);
    SignedIs(arg);
    var n, a, b := |was|, Signed(Word(was), |was|), Signed(Word(arg), |arg|);
    if action == U_ADD { WordOfRest(a + b, n); }
    else if action == U_SUB { WordOfRest(a - b, n); }
    else if action == U_MUL { WordOfRest(a * b, n); }
    else if action == U_DIV && b != 0 {
      WordOfRest(Quotient(a, b), n);
      SignedQuotient(was, arg, Bytes(Quotient(a, b) % Range(n), n));
    }
  }

  lemma SignedMod(was: seq<byte>, arg: seq<byte>)
    requires |was| == |arg|
    ensures var m: int, a, b := Range(|was|), Signed(Word(was), |was|), Signed(Word(arg), |arg|);
      && (a + b) % m == (Word(was) + Word(arg)) % m
      && (a - b) % m == (Word(was) - Word(arg)) % m
      && (a * b) % m == (Word(was) * Word(arg)) % m
  {
    hide Word, Range, Signed, TwosComplement;
    SignedIs(was);
    SignedIs(arg);
    var m: int, a, b := Range(|was|), Signed(Word(was), |was|), Signed(Word(arg), |arg|);
    var i, j := if a == Word(was) then 0 else -1, if b == Word(arg) then 0 else -1;
    SignDoesNotMatter(Word(was), Word(arg), m, i, j);
  }

  lemma SignedQuotient(was: seq<byte>, arg: seq<byte>, now: seq<byte>)
    requires |was| == |arg| && Word(arg) != 0 && Signed(Word(arg), |arg|) != 0
    requires Word(now) == Quotient(Signed(Word(was), |was|), Signed(Word(arg), |arg|)) % Range(|was|)
    ensures DividedSigned(was, arg, now)
  {
    hide Word, Range, Quotient, Signed, TwosComplement, TowardsZero;
    forall a, b | TwosComplement(a, was) && TwosComplement(b, arg)
      ensures b != 0 && exists q :: TowardsZero(a, b, q) && Word(now) == q % Range(|was|)
    {
      SignedIsOnly(a, was);
      SignedIsOnly(b, arg);
      QuotientIs(a, b);
    }
  }

  /** Sum, difference and product modulo the word, the quotient by kind, and nothing for other actions. */
  lemma NumberComputed(kind: Kind, action: byte, was: seq<byte>, arg: seq<byte>, dbl: DoubleArith)
    requires Number(kind) && |was| == |arg|
    ensures Computed(kind, action, was, arg, NewValue(kind, action, was, arg, dbl))
  {
    hide Word, Range, Integer, DividedSigned;
    UnsignedComputed(action, was, arg);
    SignedComputed(action, was, arg);
  }

  // -------------------------------------------------------------------- fields

  /** What an action has to make of a field: of the octets of its kind, and of those behind them. */
  ghost predicate Performed(f: Field, action: byte, was: seq<byte>, arg: seq<byte>, now: seq<byte>, dbl: DoubleArith)
    requires |was| == |arg| == |now| == f.length
  {
    match f.kind
    case UInt => Leading(f, 4, action, was, arg, now)
    case Int => Leading(f, 4, action, was, arg, now)
    case UInt16 => Leading(f, 2, action, was, arg, now)
    case Int16 => Leading(f, 2, action, was, arg, now)
    case Double => 8 <= f.length && now[8..] == was[8..] && OfDoubles(action, was[..8], arg[..8], now[..8], dbl)
    case _ => now == if action == 1 then arg else was
  }

  ghost predicate Leading(f: Field, n: nat, action: byte, was: seq<byte>, arg: seq<byte>, now: seq<byte>)
    requires |was| == |arg| == |now| == f.length
  {
    n <= f.length && now[n..] == was[n..] && Computed(f.kind, action, was[..n], arg[..n], now[..n])
  }

  ghost predicate OfDoubles(action: byte, was: seq<byte>, arg: seq<byte>, now: seq<byte>, dbl: DoubleArith) {
    && (action == 1 ==> now == arg)
    && (2 <= action <= 5 && |dbl(action, was, arg)| == 8 ==> now == dbl(action, was, arg))
    && (action == 0 || action > 5 ==> now == was)
  }

  /** The octets of a field that an action writes, and those behind them. */
  lemma Patched(was: seq<byte>, bytes: seq<byte>)
    requires |bytes| <= |was|
    ensures Patch(was, 0, bytes)[..|bytes|] == bytes && Patch(was, 0, bytes)[|bytes|..] == was[|bytes|..]
  {
  }

  lemma NoPatch(was: seq<byte>, n: nat)
    requires n <= |was|
    ensures Patch(was, 0, was[..n]) == was
  {
  }

  lemma FieldPerformed(f: Field, action: byte, was: seq<byte>, arg: seq<byte>, dbl: DoubleArith)
    requires |was| == |arg| == f.length && Width(f) <= f.length
    ensures var w := Width(f);
      Performed(f, action, was, arg, Patch(was, 0, NewValue(f.kind, action, was[..w], arg[..w], dbl)), dbl)
  {
    hide Patch, Computed, Integer;
    var w := Width(f);
    Patched(was, NewValue(f.kind, action, was[..w], arg[..w], dbl));
    if Number(f.kind) { NumberComputed(f.kind, action, was[..w], arg[..w], dbl); }
    WholeOf(Patch(was, 0, NewValue(f.kind, action, was[..w], arg[..w], dbl)), was, arg);
  }

  lemma WholeOf(now: seq<byte>, was: seq<byte>, arg: seq<byte>)
    requires |now| == |was| == |arg|
    ensures now[..|was|] == now && was[..|was|] == was && arg[..|was|] == arg
  {
  }

  /** An update leaves each field with what its own action makes of its own octets and the request's. */
  lemma UpdatePerforms(fields: seq<Field>, update: Update, row: Row, dbl: DoubleArith, i: nat)
    requires Fits(fields, row) && UpdateFits(fields, update) && Sized(fields) && i < |fields|
    ensures InRow(fields)
    ensures var row' := Apply(fields, update, row, 0, dbl);
      Performed(fields[i], update.actions[i],
        FieldOf(fields, row, i), FieldOf(fields, update.values, i), FieldOf(fields, row', i), dbl)
  {
    hide Performed, Patch, NewValue, FieldOf, Apply;
    SizedInRow(fields);
    ApplyIsFieldwise(fields, update, row, 0, dbl, i);
    var was, arg := FieldOf(fields, row, i), FieldOf(fields, update.values, i);
    FieldPerformed(fields[i], update.actions[i], was, arg, dbl);
    if update.actions[i] == U_NONE { NoneIsNothing(fields[i], was, arg, dbl); }
  }

  lemma NoneIsNothing(f: Field, was: seq<byte>, arg: seq<byte>, dbl: DoubleArith)
    requires |was| == |arg| == f.length && Width(f) <= f.length
    ensures Patch(was, 0, NewValue(f.kind, U_NONE, was[..Width(f)], arg[..Width(f)], dbl)) == was
  {
    NoPatch(was, Width(f));
  }
}
