/**
 Rows as octets: where the fields of a row lie, and what an update rule does to them.
 */
module Layout {
  import opened Common

  datatype Kind = UInt | Int | UInt16 | Int16 | Double | Timestamp | Binary | Text

  datatype Field = Field(kind: Kind, length: nat, offset: nat)

  type Row = seq<byte>

  /** Octets an update writes into a field: those of a machine word for numbers, else what the descriptor says. */
  function Width(f: Field): nat {
    match f.kind
    case UInt => 4
    case Int => 4
    case UInt16 => 2
    case Int16 => 2
    case Double => 8
    case _ => f.length
  }

  // ---------------------------------------------------------------- the tiling

  /** Where the `i`-th field starts: after all the fields before it. */
  function Offset(fields: seq<Field>, i: nat): (n: nat)
    requires i <= |fields|
  {
    if i == 0 then 0 else Offset(fields, i - 1) + fields[i - 1].length
  }

  /** The descriptor of a table as Qbase_fixtbl leaves it. */
  predicate Tiled(fields: seq<Field>) {
    forall i | 0 <= i < |fields| :: fields[i].offset == Offset(fields, i)
  }

  lemma {:induction false} OffsetMonotone(fields: seq<Field>, i: nat, j: nat)
    requires i < j <= |fields|
    ensures Offset(fields, i) + fields[i].length <= Offset(fields, j)
  {
    if i + 1 < j { OffsetMonotone(fields, i, j - 1); }
  }

  lemma {:induction false} OffsetDepends(fields: seq<Field>, fields': seq<Field>, i: nat)
    requires i <= |fields| == |fields'|
    requires forall j | 0 <= j < |fields| :: fields'[j].length == fields[j].length
    ensures Offset(fields', i) == Offset(fields, i)
  {
    if i != 0 { OffsetDepends(fields, fields', i - 1); }
  }

  /** Qbase_fixtbl: lay the fields out one after another and add up the length of a row. */
  method FixTable(fields: array<Field>) returns (rowLen: nat)
    modifies fields
    ensures Tiled(fields[..]) && rowLen == Offset(fields[..], fields.Length)
    ensures forall i | 0 <= i < fields.Length ::
      fields[i].kind == old(fields[i].kind) && fields[i].length == old(fields[i].length)
  {
    rowLen := 0;
    ghost var was := fields[..];
    for i := 0 to fields.Length
      invariant rowLen == Offset(was, i)
      invariant forall j | i <= j < fields.Length :: fields[j] == was[j]
      invariant forall j | 0 <= j < i :: fields[j] == was[j].(offset := Offset(was, j))
    {
      fields[i] := fields[i].(offset := rowLen);
      rowLen := rowLen + fields[i].length;
    }
    forall i | 0 <= i <= fields.Length ensures Offset(fields[..], i) == Offset(was, i) {
      OffsetDepends(was, fields[..], i);
    }
  }

  /** Every field has room for what is written into it. */
  predicate Sized(fields: seq<Field>) {
    forall i | 0 <= i < |fields| :: Width(fields[i]) <= fields[i].length
  }

  /** Octets of a time stamp. */
  const TIMESPEC: nat := 8

  /** The length a field of a kind is given. */
  function Metrics(kind: Kind, length: nat): nat {
    match kind
    case Int => 4
    case UInt => 4
    case Int16 => 2
    case UInt16 => 2
    case Double => 8
    case Timestamp => TIMESPEC
    case _ => length
  }

  /** Qbase_new_tbldesc: the key and `cols` more fields, all of them unsigned. */
  method NewDescriptor(cols: nat) returns (fields: array<Field>, rowLen: nat)
    ensures fresh(fields) && fields.Length == cols + 1
    ensures Tiled(fields[..]) && Sized(fields[..]) && rowLen == Offset(fields[..], fields.Length)
    ensures forall i | 0 <= i < fields.Length :: fields[i].kind == UInt && fields[i].length == 4
  {
    fields := new Field[cols + 1](_ => Field(UInt, 4, 0));
    rowLen := FixTable(fields);
  }

  /** Qbase_set_field_metrics: gives a field its kind and lays the table out again, so that every field has room. */
  method SetMetrics(fields: array<Field>, col: nat, kind: Kind, length: nat) returns (rowLen: Option<nat>)
    modifies fields
    ensures rowLen.None? <==> fields.Length <= col
    ensures rowLen.None? ==> fields[..] == old(fields[..])
    ensures rowLen.Some? ==> Tiled(fields[..]) && rowLen.value == Offset(fields[..], fields.Length)
    ensures forall i | 0 <= i < fields.Length && i != col ::
      fields[i].kind == old(fields[i].kind) && fields[i].length == old(fields[i].length)
    ensures rowLen.Some? ==> fields[col].kind == kind && Width(fields[col]) <= fields[col].length
    ensures rowLen.Some? && !kind.Timestamp? ==>
      fields[col].length == if kind.Binary? || kind.Text? then length else Width(fields[col])
    ensures rowLen.Some? && kind.Timestamp? ==> fields[col].length == TIMESPEC
    ensures old(Sized(fields[..])) ==> Sized(fields[..])
  {
    if fields.Length <= col {
      return None;
    }
    fields[col] := Field(kind, Metrics(kind, length), fields[col].offset);
    var n := FixTable(fields);
    rowLen := Some(n);
    forall i | old(Sized(fields[..])) && 0 <= i < fields.Length ensures Width(fields[i]) <= fields[i].length {
      assert i != col ==> Width(old(fields[..])[i]) <= old(fields[..])[i].length;
    }
  }

  /** Every octet of a row belongs to exactly one field. */
  lemma {:induction false} TilesRow(fields: seq<Field>, at: nat)
    requires Tiled(fields) && at < Offset(fields, |fields|)
    ensures exists i :: 0 <= i < |fields| && fields[i].offset <= at < fields[i].offset + fields[i].length
    ensures forall i, j | 0 <= i < j < |fields| ::
      !(fields[i].offset <= at < fields[i].offset + fields[i].length
        && fields[j].offset <= at < fields[j].offset + fields[j].length)
  {
    var i := Owner(fields, |fields|, at);
    assert fields[i].offset == Offset(fields, i);
    forall i, j | 0 <= i < j < |fields|
      ensures fields[i].offset + fields[i].length <= fields[j].offset
    {
      OffsetMonotone(fields, i, j);
    }
  }

  lemma {:induction false} Owner(fields: seq<Field>, n: nat, at: nat) returns (i: nat)
    requires n <= |fields| && at < Offset(fields, n)
    ensures i < n && Offset(fields, i) <= at < Offset(fields, i) + fields[i].length
    decreases n
  {
    if at < Offset(fields, n - 1) { i := Owner(fields, n - 1, at); } else { i := n - 1; }
  }

  // --------------------------------------------------------------- field values

  /** Little-endian value of a few octets. */
  function Word(bytes: seq<byte>): (w: nat) {
    if bytes == [] then 0 else bytes[0] + 256 * Word(bytes[1..])
  }

  /** The `n` low octets of a value. */
  function Bytes(w: nat, n: nat): (bytes: seq<byte>)
    ensures |bytes| == n
    decreases n
  {
    if n == 0 then [] else [w % 256] + Bytes(w / 256, n - 1)
  }

  function Range(n: nat): (w: nat)
    ensures 0 < w
  {
    if n == 0 then 1 else 256 * Range(n - 1)
  }

  lemma {:induction false} WordOfBytes(w: nat, n: nat)
    requires w < Range(n)
    ensures Word(Bytes(w, n)) == w
    decreases n
  {
    if n != 0 {
      WordOfBytes(w / 256, n - 1);
      assert Bytes(w, n)[1..] == Bytes(w / 256, n - 1);
    }
  }

  lemma {:induction false} BytesOfWord(bytes: seq<byte>)
    ensures Word(bytes) < Range(|bytes|)
    ensures Bytes(Word(bytes), |bytes|) == bytes
  {
    if bytes != [] {
      BytesOfWord(bytes[1..]);
      assert bytes == [bytes[0]] + bytes[1..];
    }
  }

  /** The first octets are the low ones. */
  lemma {:induction false} WordConcat(low: seq<byte>, high: seq<byte>)
    ensures Word([]) == 0 && (|low| == 1 ==> Word(low) == low[0])
    ensures Word(low + high) == Word(low) + Range(|low|) * Word(high)
  {
    if low == [] {
      assert low + high == high;
    } else {
      assert (low + high)[1..] == low[1..] + high;
      WordConcat(low[1..], high);
      Octet(Range(|low| - 1), Word(high));
    }
  }

  lemma Octet(r: nat, w: nat)
    ensures 256 * (r * w) == 256 * r * w
  {
  }

  /** The value of an unsigned word as a two's complement number. */
  function Signed(w: nat, n: nat): int {
    if 2 * w < Range(n) then w else w - Range(n)
  }

  /** Division as the machine does it, towards zero. */
  function Quotient(a: int, b: int): int
    requires b != 0
  {
    var q := Abs(a) / Abs(b);
    if (a < 0) == (b < 0) then q else -q
  }

  function Abs(a: int): (r: nat) {
    if a < 0 then -a else a
  }

  // --------------------------------------------------------------- update rules

  /** The actions of an update rule, with the numbers they travel by. */
  const U_NONE := 0
  const U_SET := 1
  const U_ADD := 2
  const U_SUB := 3
  const U_MUL := 4
  const U_DIV := 5

  /** Arithmetic on the octets of two doubles, which this model leaves open. */
  type DoubleArith = (byte, seq<byte>, seq<byte>) -> seq<byte>

  /** What `action` makes of a field holding `was`, given the value `arg`. */
  function NewValue(kind: Kind, action: byte, was: seq<byte>, arg: seq<byte>, dbl: DoubleArith): (now: seq<byte>)
    requires |was| == |arg|
    ensures |now| == |was|
    ensures action == U_SET ==> now == arg
  {
    if action == U_SET then arg
    else match kind
      case UInt => Integer(action, was, arg, false)
      case Int => Integer(action, was, arg, true)
      case UInt16 => Integer(action, was, arg, false)
      case Int16 => Integer(action, was, arg, true)
      case Double =>
        var now := dbl(action, was, arg);
        if U_ADD <= action <= U_DIV && |now| == |was| then now else was
      case _ => was
  }

  function Integer(action: byte, was: seq<byte>, arg: seq<byte>, signed: bool): (now: seq<byte>)
    requires |was| == |arg|
    ensures |now| == |was|
  {
    var n := |was|;
    var a := if signed then Signed(Word(was), n) else Word(was);
    var b := if signed then Signed(Word(arg), n) else Word(arg);
    if action == U_ADD then Bytes((a + b) % Range(n), n)
    else if action == U_SUB then Bytes((a - b) % Range(n), n)
    else if action == U_MUL then Bytes((a * b) % Range(n), n)
    else if action == U_DIV && b != 0 then Bytes(Quotient(a, b) % Range(n), n)
    else was
  }

  /** What an UPDATE request carries: one action for each field, and values laid out like a row. */
  datatype Update = Update(actions: seq<byte>, values: Row)

  predicate Fits(fields: seq<Field>, row: Row) {
    Tiled(fields) && |row| == Offset(fields, |fields|)
  }

  predicate UpdateFits(fields: seq<Field>, update: Update) {
    |update.actions| == |fields| && Fits(fields, update.values)
  }

  /** What is written stays in the row. */
  predicate InRow(fields: seq<Field>) {
    forall i | 0 <= i < |fields| :: fields[i].offset + Width(fields[i]) <= Offset(fields, |fields|)
  }

  lemma FieldInRow(fields: seq<Field>, i: nat)
    requires Tiled(fields) && i < |fields|
    ensures fields[i].offset + fields[i].length <= Offset(fields, |fields|)
  {
    OffsetMonotone(fields, i, |fields|);
  }

  lemma SizedInRow(fields: seq<Field>)
    requires Tiled(fields) && Sized(fields)
    ensures InRow(fields)
  {
    forall i: nat | i < |fields| ensures fields[i].offset + Width(fields[i]) <= Offset(fields, |fields|) {
      FieldInRow(fields, i);
    }
  }

  function FieldOf(fields: seq<Field>, row: Row, i: nat): (bytes: seq<byte>)
    requires Fits(fields, row) && i < |fields|
    ensures |bytes| == fields[i].length
  {
    FieldInRow(fields, i);
    row[fields[i].offset..fields[i].offset + fields[i].length]
  }

  /** Overwrite the octets from `at` on. */
  function Patch(row: seq<byte>, at: nat, bytes: seq<byte>): (row': seq<byte>)
    requires at + |bytes| <= |row|
    ensures |row'| == |row|
  {
    row[..at] + bytes + row[at + |bytes|..]
  }

  /** The octets of field `j` after its action, as many as a number of its kind has. */
  function Now(fields: seq<Field>, update: Update, row: Row, j: nat, dbl: DoubleArith): (now: seq<byte>)
    requires Fits(fields, row) && UpdateFits(fields, update) && InRow(fields) && j < |fields|
    ensures |now| == Width(fields[j])
  {
    var at, w := fields[j].offset, Width(fields[j]);
    NewValue(fields[j].kind, update.actions[j], row[at..at + w], update.values[at..at + w], dbl)
  }

  /** One field's action. */
  function Acted(fields: seq<Field>, update: Update, row: Row, j: nat, dbl: DoubleArith): (row': Row)
    requires Fits(fields, row) && UpdateFits(fields, update) && InRow(fields) && j < |fields|
    ensures Fits(fields, row')
  {
    if update.actions[j] == U_NONE then row else Patch(row, fields[j].offset, Now(fields, update, row, j, dbl))
  }

  /** The loop over the fields that UPDATE runs for each row, from field `j` on. */
  function Apply(fields: seq<Field>, update: Update, row: Row, j: nat, dbl: DoubleArith): (row': Row)
    requires Fits(fields, row) && UpdateFits(fields, update) && InRow(fields) && j <= |fields|
    ensures |row'| == |row|
    decreases |fields| - j
  {
    if j == |fields| then row
    else Apply(fields, update, Acted(fields, update, row, j, dbl), j + 1, dbl)
  }

  lemma PatchElsewhere(fields: seq<Field>, row: Row, j: nat, bytes: seq<byte>, i: nat)
    requires Fits(fields, row) && i < |fields| && j < |fields| && |bytes| <= fields[j].length
    ensures fields[j].offset + |bytes| <= |row|
    ensures FieldOf(fields, Patch(row, fields[j].offset, bytes), i) ==
      if i == j then Patch(FieldOf(fields, row, i), 0, bytes) else FieldOf(fields, row, i)
  {
    hide Patch, Tiled, Offset;
    FieldInRow(fields, i);
    FieldInRow(fields, j);
    var at, to := fields[i].offset, fields[i].offset + fields[i].length;
    if i == j {
      PatchWithin(row, at, bytes, to);
    } else {
      FieldsApart(fields, i, j);
      PatchOutside(row, fields[j].offset, bytes, at, to);
    }
  }

  lemma FieldsApart(fields: seq<Field>, i: nat, j: nat)
    requires Tiled(fields) && i < |fields| && j < |fields| && i != j
    ensures fields[i].offset + fields[i].length <= fields[j].offset
      || fields[j].offset + fields[j].length <= fields[i].offset
  {
    if i < j { OffsetMonotone(fields, i, j); } else { OffsetMonotone(fields, j, i); }
  }

  lemma PatchOutside(row: Row, at: nat, bytes: seq<byte>, from: nat, to: nat)
    requires from <= to <= |row| && at + |bytes| <= |row| && (to <= at || at + |bytes| <= from)
    ensures Patch(row, at, bytes)[from..to] == row[from..to]
  {
  }

  lemma PatchWithin(row: Row, at: nat, bytes: seq<byte>, to: nat)
    requires at + |bytes| <= to <= |row|
    ensures Patch(row, at, bytes)[at..to] == Patch(row[at..to], 0, bytes)
  {
    assert row[at..to][|bytes|..] == row[at + |bytes|..to];
    assert Patch(row, at, bytes)[at..to] == bytes + row[at + |bytes|..to];
  }

  lemma NowOfField(fields: seq<Field>, update: Update, row: Row, j: nat, dbl: DoubleArith)
    requires Fits(fields, row) && UpdateFits(fields, update) && InRow(fields) && Sized(fields) && j < |fields|
    ensures var w := Width(fields[j]);
      Now(fields, update, row, j, dbl) == NewValue(fields[j].kind, update.actions[j],
        FieldOf(fields, row, j)[..w], FieldOf(fields, update.values, j)[..w], dbl)
  {
    hide NewValue, Tiled, Offset;
    FieldInRow(fields, j);
    var at, w, n := fields[j].offset, Width(fields[j]), fields[j].length;
    assert row[at..at + n][..w] == row[at..at + w];
    assert update.values[at..at + n][..w] == update.values[at..at + w];
  }

  /**
   If every field has room for what is written into it, an update changes each field by its
   own action alone: what becomes of field `i` depends on field `i` of the row and of the
   request and on nothing else.
   */
  lemma {:induction false} ApplyIsFieldwise(
    fields: seq<Field>, update: Update, row: Row, j: nat, dbl: DoubleArith, i: nat)
    requires Fits(fields, row) && UpdateFits(fields, update) && Sized(fields) && j <= |fields| && i < |fields|
    ensures InRow(fields)
    ensures var was, w := FieldOf(fields, row, i), Width(fields[i]);
      FieldOf(fields, Apply(fields, update, row, j, dbl), i) ==
        if i < j || update.actions[i] == U_NONE then was
        else Patch(was, 0, NewValue(fields[i].kind, update.actions[i],
                                    was[..w], FieldOf(fields, update.values, i)[..w], dbl))
    decreases |fields| - j
  {
    hide NewValue, FieldOf, Patch, Acted, InRow;
    SizedInRow(fields);
    if j < |fields| {
      ActedFieldwise(fields, update, row, j, dbl, i);
      ApplyIsFieldwise(fields, update, Acted(fields, update, row, j, dbl), j + 1, dbl, i);
    }
  }

  lemma ActedFieldwise(fields: seq<Field>, update: Update, row: Row, j: nat, dbl: DoubleArith, i: nat)
    requires Fits(fields, row) && UpdateFits(fields, update) && Sized(fields) && InRow(fields)
    requires j < |fields| && i < |fields|
    ensures var was, w := FieldOf(fields, row, i), Width(fields[i]);
      FieldOf(fields, Acted(fields, update, row, j, dbl), i) ==
        if i != j || update.actions[i] == U_NONE then was
        else Patch(was, 0, NewValue(fields[i].kind, update.actions[i],
                                    was[..w], FieldOf(fields, update.values, i)[..w], dbl))
  {
    hide NewValue, FieldOf, Patch, Now;
    PatchElsewhere(fields, row, j, Now(fields, update, row, j, dbl), i);
    NowOfField(fields, update, row, j, dbl);
  }

  /** A field without an action is left alone. */
  ghost predicate LeavesOthers(fields: seq<Field>, update: Update, row: Row, dbl: DoubleArith)
    requires Fits(fields, row) && UpdateFits(fields, update) && InRow(fields)
  {
    forall i | 0 <= i < |fields| && update.actions[i] == U_NONE ::
      FieldOf(fields, Apply(fields, update, row, 0, dbl), i) == FieldOf(fields, row, i)
  }

  /** That is so of every update and row, if and only if every field has room for what is written into it. */
  lemma FieldwiseIffSized(fields: seq<Field>, dbl: DoubleArith)
    requires Tiled(fields) && InRow(fields)
    ensures Sized(fields) <==>
      forall update, row | Fits(fields, row) && UpdateFits(fields, update) :: LeavesOthers(fields, update, row, dbl)
  {
    if Sized(fields) {
      forall update, row, i | Fits(fields, row) && UpdateFits(fields, update) && 0 <= i < |fields|
        && update.actions[i] == U_NONE
        ensures FieldOf(fields, Apply(fields, update, row, 0, dbl), i) == FieldOf(fields, row, i)
      {
        ApplyIsFieldwise(fields, update, row, 0, dbl, i);
      }
    } else {
      var j: nat :| j < |fields| && fields[j].length < Width(fields[j]);
      Spills(fields, j, dbl);
    }
  }

  lemma {:induction false} ApplyNone(fields: seq<Field>, update: Update, row: Row, j: nat, dbl: DoubleArith)
    requires Fits(fields, row) && UpdateFits(fields, update) && InRow(fields) && j <= |fields|
    requires forall i | j <= i < |fields| :: update.actions[i] == U_NONE
    ensures Apply(fields, update, row, j, dbl) == row
    decreases |fields| - j
  {
    if j < |fields| { ApplyNone(fields, update, row, j + 1, dbl); }
  }

  lemma {:induction false} ApplyOne(fields: seq<Field>, update: Update, row: Row, k: nat, j: nat, dbl: DoubleArith)
    requires Fits(fields, row) && UpdateFits(fields, update) && InRow(fields) && k <= j < |fields|
    requires forall i | 0 <= i < |fields| :: update.actions[i] == if i == j then U_SET else U_NONE
    ensures var at, w := fields[j].offset, Width(fields[j]);
      Apply(fields, update, row, k, dbl) == Patch(row, at, update.values[at..at + w])
    decreases j - k
  {
    hide Now, Patch;
    if k < j {
      ApplyOne(fields, update, row, k + 1, j, dbl);
    } else {
      NowSet(fields, update, row, j, dbl);
      ApplyNone(fields, update, Acted(fields, update, row, j, dbl), j + 1, dbl);
    }
  }

  lemma NowSet(fields: seq<Field>, update: Update, row: Row, j: nat, dbl: DoubleArith)
    requires Fits(fields, row) && UpdateFits(fields, update) && InRow(fields) && j < |fields|
    requires update.actions[j] == U_SET
    ensures var at, w := fields[j].offset, Width(fields[j]);
      Now(fields, update, row, j, dbl) == update.values[at..at + w]
  {
    hide NewValue;
  }

  /** A field too short for its kind: setting it, and nothing else, can change another field. */
  lemma Spills(fields: seq<Field>, j: nat, dbl: DoubleArith)
    requires Tiled(fields) && InRow(fields) && j < |fields| && fields[j].length < Width(fields[j])
    ensures !forall update, row | Fits(fields, row) && UpdateFits(fields, update) ::
      LeavesOthers(fields, update, row, dbl)
  {
    hide Apply, LeavesOthers;
    var n, at := Offset(fields, |fields|), fields[j].offset + fields[j].length;
    var row: Row, values: Row := seq(n, _ => 0), seq(n, _ => 1);
    var update := Update(seq(|fields|, i => if i == j then U_SET else U_NONE), values);
    var i := Owner(fields, |fields|, at);
    if i < j { OffsetMonotone(fields, i, j); }
    FieldInRow(fields, i);
    ApplyOne(fields, update, row, 0, j, dbl);
    assert Apply(fields, update, row, 0, dbl)[at] == 1;
    OctetOf(fields, Apply(fields, update, row, 0, dbl), i, at);
    OctetOf(fields, row, i, at);
    Changes(fields, update, row, dbl, i);
  }

  lemma OctetOf(fields: seq<Field>, row: Row, i: nat, at: nat)
    requires Fits(fields, row) && i < |fields| && fields[i].offset <= at < fields[i].offset + fields[i].length
    ensures at < |row| && FieldOf(fields, row, i)[at - fields[i].offset] == row[at]
  {
    FieldInRow(fields, i);
  }

  lemma Changes(fields: seq<Field>, update: Update, row: Row, dbl: DoubleArith, i: nat)
    requires Fits(fields, row) && UpdateFits(fields, update) && InRow(fields) && i < |fields|
    requires update.actions[i] == U_NONE
    requires FieldOf(fields, Apply(fields, update, row, 0, dbl), i) != FieldOf(fields, row, i)
    ensures !LeavesOthers(fields, update, row, dbl)
  {
    hide Apply, FieldOf;
  }

  /** A descriptor whose first field is a number of four octets in a room of two. */
  lemma NarrowKeySpills(dbl: DoubleArith)
    ensures var fields := [Field(UInt, 2, 0), Field(UInt16, 2, 2)];
      && Tiled(fields) && InRow(fields) && !Sized(fields)
      && var update, row := Update([U_SET, U_NONE], [1, 1, 1, 1]), [0, 0, 0, 0];
        && Fits(fields, row) && UpdateFits(fields, update)
        && FieldOf(fields, row, 1) == [0, 0]
        && FieldOf(fields, Apply(fields, update, row, 0, dbl), 1) == [1, 1]
  {
    var fields := [Field(UInt, 2, 0), Field(UInt16, 2, 2)];
    assert Offset(fields, 1) == 2 && Offset(fields, 2) == 4;
    assert !(Width(fields[0]) <= fields[0].length);
    var update, row := Update([U_SET, U_NONE], [1, 1, 1, 1]), [0, 0, 0, 0];
    ApplyOne(fields, update, row, 0, 0, dbl);
    assert update.values[0..4] == [1, 1, 1, 1];
  }
}
