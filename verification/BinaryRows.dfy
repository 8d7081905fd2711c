/** Rows of the binary protocol: a zero byte, the NULL bitmap, and the values that are not NULL. */
module BinaryRows {
  import opened Lists
  import opened Options
  import opened Bytes
  import opened Bits
  import opened Encoding
  import opened FieldTypes
  import opened BinaryValues

  datatype Cell = Cell(typ: FieldType, value: Value)

  /** Every value has the Go type its column type calls for. */
  predicate Typed(row: seq<Cell>) {
    forall i | 0 <= i < |row| :: Covered(row[i].typ) && WellTyped(row[i].typ, row[i].value)
  }

  /** Bytes of the bitmap; its first two bits are not used. */
  function MapLength(columns: nat): nat {
    (columns + 7 + 2) / 8
  }

  /** The bitmap is as short as it can be with one bit for each column and two in front. */
  lemma {:induction false} MapLengthExact(columns: nat)
    ensures columns + 2 <= 8 * MapLength(columns) < columns + 10
  {
  }

  /** The bitmap marks exactly the NULLs among the first `n` cells. */
  ghost predicate Marks(m: seq<byte>, row: seq<Cell>, n: nat)
    requires n <= |row|
  {
    forall k | 0 <= k < 8 * |m| :: IsSet(m, k) <==> 2 <= k < n + 2 && row[k - 2].value.Nil?
  }

  /** The bytes of a cell; nothing for NULL. */
  function EncodeCell(c: Cell): Option<seq<byte>> {
    if c.value.Nil? || !WellTyped(c.typ, c.value) then Some([]) else Encode(c.typ, c.value)
  }

  function CellSize(c: Cell): (size: nat)
    ensures EncodeCell(c).Some? ==> size == |EncodeCell(c).value|
  {
    if c.value.Nil? || !WellTyped(c.typ, c.value) then 0 else Size(c.typ, c.value)
  }

  /** The values in a row, one behind the other, if all of them can be encoded. */
  function Body(enc: Cell -> Option<seq<byte>>, row: seq<Cell>): Option<seq<byte>> {
    if row == [] then Some([])
    else
      var first, others := enc(row[0]), Body(enc, row[1..]);
      if first.None? || others.None? then None else Some(first.value + others.value)
  }

  function Total(size: Cell -> nat, row: seq<Cell>): nat {
    if row == [] then 0 else size(row[0]) + Total(size, row[1..])
  }

  /** The packet of a row. */
  ghost predicate IsPacket(enc: Cell -> Option<seq<byte>>, p: seq<byte>, row: seq<Cell>) {
    var m := MapLength(|row|);
    && |p| >= 1 + m && p[0] == 0 && Marks(p[1..1 + m], row, |row|)
    && Body(enc, row) == Some(p[1 + m..])
  }

  // ----- writing -----

  method RowSize(size: Cell -> nat, row: seq<Cell>) returns (length: nat)
    ensures length == Total(size, row)
  {
    length := 0;
    var i := 0;
    assert row[0..] == row;
    while i < |row|
      invariant 0 <= i <= |row| && length + Total(size, row[i..]) == Total(size, row)
    {
      assert row[i..][1..] == row[i + 1..];
      length := length + size(row[i]);
      i := i + 1;
    }
  }

  method Mark(data: array<byte>, row: seq<Cell>, i: nat)
    requires i < |row| && row[i].value.Nil? && 1 + MapLength(|row|) <= data.Length
    requires Marks(data[1..1 + MapLength(|row|)], row, i)
    modifies data
    ensures Marks(data[1..1 + MapLength(|row|)], row, i + 1)
    ensures data[0] == old(data[0]) && data[1 + MapLength(|row|)..] == old(data[1 + MapLength(|row|)..])
  {
    var bytePos, bitPos := (i + 2) / 8 + 1, (i + 2) % 8;
    ghost var m := data[1..1 + MapLength(|row|)];
    data[bytePos] := Marked(data[bytePos], bitPos);
    ghost var m' := data[1..1 + MapLength(|row|)];
    assert m' == m[(i + 2) / 8 := Marked(m[(i + 2) / 8], bitPos)];
    forall k | 0 <= k < 8 * |m| ensures IsSet(m', k) <==> k == i + 2 || IsSet(m, k) {
      MarkedAt(m, i + 2, k);
    }
  }

  /** Marks one cell as NULL or copies its bytes behind those written so far. */
  method Put(enc: Cell -> Option<seq<byte>>, row: seq<Cell>, i: nat, data: array<byte>, start: nat, pos: nat)
    returns (error: bool, next: nat)
    requires i < |row| && start == 1 + MapLength(|row|) <= pos <= data.Length
    requires row[i].value.Nil? ==> enc(row[i]) == Some([])
    requires enc(row[i]).Some? ==> pos + |enc(row[i]).value| <= data.Length
    requires data[0] == 0 && Marks(data[1..start], row, i)
    modifies data
    ensures error == enc(row[i]).None?
    ensures !error ==> next == pos + |enc(row[i]).value| && data[start..next] == old(data[start..pos]) + enc(row[i]).value
    ensures !error ==> data[0] == 0 && Marks(data[1..start], row, i + 1)
  {
    if row[i].value.Nil? {
      Mark(data, row, i);
      assert data[start..][..pos - start] == data[start..pos];
      assert old(data[start..])[..pos - start] == old(data[start..pos]);
      return false, pos;
    }
    var v := enc(row[i]);
    if v.None? { return true, pos; }
    next := Copy(data, start, pos, v.value);
    assert data[1..start] == old(data[1..start]);
    return false, next;
  }

  /** Fills the packet behind its zeroed header; stops at the first value that cannot be encoded. */
  method Fill(enc: Cell -> Option<seq<byte>>, size: Cell -> nat, row: seq<Cell>, data: array<byte>)
    returns (error: bool, pos: nat)
    requires forall c :: enc(c).Some? ==> |enc(c).value| == size(c)
    requires forall c: Cell | c.value.Nil? :: enc(c) == Some([])
    requires data.Length == 1 + MapLength(|row|) + Total(size, row) && data[0] == 0
    requires Marks(data[1..1 + MapLength(|row|)], row, 0)
    modifies data
    ensures error <==> Body(enc, row).None?
    ensures !error ==> pos == data.Length && data[0] == 0 && Marks(data[1..1 + MapLength(|row|)], row, |row|)
    ensures !error ==> Body(enc, row) == Some(data[1 + MapLength(|row|)..])
  {
    var start := 1 + MapLength(|row|);
    pos := start;
    var i := 0;
    assert row[0..] == row;
    assert data[start..start] == [];
    BeforeNothing(Body(enc, row));
    while i < |row|
      invariant 0 <= i <= |row| && start <= pos && pos + Total(size, row[i..]) == data.Length
      invariant data[0] == 0 && Marks(data[1..start], row, i)
      invariant Before(data[start..pos], Body(enc, row[i..])) == Body(enc, row)
    {
      BodyStep(enc, size, row, i, data[start..pos]);
      error, pos := Put(enc, row, i, data, start, pos);
      if error { return; }
      i := i + 1;
    }
    assert data[start..pos] + [] == data[start..pos] == data[start..];
    return false, pos;
  }

  lemma {:induction false} BeforeNothing(b: Option<seq<byte>>)
    ensures Before([], b) == b
  {
    if b.Some? {
      assert [] + b.value == b.value;
    }
  }

  lemma {:induction false} BodyStep(enc: Cell -> Option<seq<byte>>, size: Cell -> nat, row: seq<Cell>, i: nat,
                                    a: seq<byte>)
    requires i < |row|
    ensures Total(size, row[i..]) == size(row[i]) + Total(size, row[i + 1..])
    ensures Before(a, Body(enc, row[i..])) ==
            if enc(row[i]).None? then None else Before(a + enc(row[i]).value, Body(enc, row[i + 1..]))
  {
    assert row[i..][1..] == row[i + 1..];
    var first, others := enc(row[i]), Body(enc, row[i + 1..]);
    if first.Some? && others.Some? {
      Associative(a, first.value, others.value);
    }
  }

  function Before(a: seq<byte>, b: Option<seq<byte>>): Option<seq<byte>> {
    if b.None? then None else Some(a + b.value)
  }

  method Copy(data: array<byte>, start: nat, pos: nat, value: seq<byte>) returns (next: nat)
    requires start <= pos && pos + |value| <= data.Length
    modifies data
    ensures next == pos + |value| && forall k | 0 <= k < start :: data[k] == old(data[k])
    ensures data[start..next] == old(data[start..pos]) + value
  {
    next := WriteEOFString(data, pos, value);
    ghost var all := old(data[..pos]) + value;
    assert forall k | 0 <= k < start :: data[k] == data[..next][k] == all[k] == old(data[k]);
    assert data[start..next] == all[start..];
  }

  lemma {:induction false} NothingMarked(m: seq<byte>, row: seq<Cell>)
    requires forall j | 0 <= j < |m| :: m[j] == 0
    ensures Marks(m, row, 0)
  {
    forall k | 0 <= k < 8 * |m| ensures !IsSet(m, k) {
      NoBits(k % 8);
    }
  }

  /** Packs a row; it fails exactly when an unsigned value given as text is no 64-bit numeral, never on the length. */
  method WriteBinaryRow(row: seq<Cell>) returns (data: array<byte>, error: bool)
    requires Typed(row)
    ensures error <==> Body(EncodeCell, row).None?
    ensures !error ==> IsPacket(EncodeCell, data[..], row)
  {
    var length := RowSize(CellSize, row);
    var mapLength := MapLength(|row|);
    length := length + mapLength + 1;
    data := new byte[length];
    var pos := WriteByte(data, 0, 0);
    var i := 0;
    while i < mapLength
      invariant 0 <= i <= mapLength && pos == 1 + i
      invariant forall k | 0 <= k < pos :: data[k] == 0
    {
      data[pos] := 0;
      pos := pos + 1;
      i := i + 1;
    }
    NothingMarked(data[1..1 + mapLength], row);
    error, pos := Fill(EncodeCell, CellSize, row, data);
    if error { return; }
    assert data[..][1..1 + mapLength] == data[1..1 + mapLength];
    assert data[..][1 + mapLength..] == data[1 + mapLength..];
    error := pos != length;
  }

  // ----- decoding -----

  datatype Decoded = Row(values: seq<Value>) | Malformed | Broken

  function ReadValue(t: FieldType, b: seq<byte>): Piece {
    if Covered(t) then DecodeValue(t, b) else Missing
  }

  /** Decodes the columns from `i` on, behind the values decoded so far. */
  function DecodeFrom(read: (FieldType, seq<byte>) -> Piece, mask: seq<byte>, types: seq<FieldType>, i: nat,
                      content: seq<byte>, values: seq<Value>): Decoded
    requires i <= |types| && |types| + 2 <= 8 * |mask|
    decreases |types| - i
  {
    if i == |types| then Row(values)
    else if IsSet(mask, i + 2) then DecodeFrom(read, mask, types, i + 1, content, values + [Nil])
    else
      var p := read(types[i], content);
      if p.Missing? || p.n > |content| then Broken
      else DecodeFrom(read, mask, types, i + 1, content[p.n..], values + [p.value])
  }

  /** A row packet that starts with zero; a packet too short for its columns cannot be indexed. */
  function DecodeBinary(read: (FieldType, seq<byte>) -> Piece, content: seq<byte>, types: seq<FieldType>): Decoded {
    var m := MapLength(|types|);
    if content == [] then Broken
    else if content[0] != 0 then Malformed
    else if |content| < 1 + m then Broken
    else DecodeFrom(read, content[1..1 + m], types, 0, content[1 + m..], [])
  }

  method Scan(read: (FieldType, seq<byte>) -> Piece, mask: seq<byte>, types: seq<FieldType>, content: seq<byte>,
              start: nat)
    returns (r: Decoded)
    requires |types| + 2 <= 8 * |mask| && start <= |content|
    ensures r == DecodeFrom(read, mask, types, 0, content[start..], [])
  {
    var dest: seq<Value> := [];
    var pos, i := start, 0;
    while i < |types|
      invariant 0 <= i <= |types| && start <= pos <= |content|
      invariant DecodeFrom(read, mask, types, i, content[pos..], dest) == DecodeFrom(read, mask, types, 0, content[start..], [])
    {
      if IsSet(mask, i + 2) {
        dest := dest + [Nil];
      } else {
        var p := read(types[i], content[pos..]);
        if p.Missing? || pos + p.n > |content| { return Broken; }
        assert content[pos..][p.n..] == content[pos + p.n..];
        dest := dest + [p.value];
        pos := pos + p.n;
      }
      i := i + 1;
    }
    return Row(dest);
  }

  /** A row received from a server, decoded at most once. */
  class BinaryRow {
    const content: seq<byte>
    const types: seq<FieldType>
    var decoded: bool
    var values: seq<Value>

    constructor (content: seq<byte>, types: seq<FieldType>)
      ensures this.content == content && this.types == types && !decoded && values == []
    {
      this.content, this.types, decoded, values := content, types, false, [];
    }

    /** A second call repeats the values; after a failure they are empty and no error is reported. */
    method Decode() returns (r: Decoded)
      modifies this
      ensures decoded
      ensures old(decoded) ==> r == Row(old(values)) && values == old(values)
      ensures !old(decoded) ==> r == DecodeBinary(ReadValue, content, types) && values == if r.Row? then r.values else old(values)
    {
      if decoded { return Row(values); }
      decoded := true;
      if content == [] { return Broken; }
      if content[0] != 0 { return Malformed; }
      var pos := 1 + MapLength(|types|);
      if |content| < pos { return Broken; }
      r := Scan(ReadValue, content[1..pos], types, content, pos);
      if r.Row? { values := r.values; }
    }
  }

  // ----- round trip -----

  function Types(row: seq<Cell>): (ts: seq<FieldType>)
    ensures |ts| == |row| && forall i | 0 <= i < |row| :: ts[i] == row[i].typ
  {
    if row == [] then [] else Types(row[..|row| - 1]) + [row[|row| - 1].typ]
  }

  /** What comes back for a cell. */
  function Kept(c: Cell): Value {
    if WellTyped(c.typ, c.value) && (c.value.Nil? || Encode(c.typ, c.value).Some?) then Canonical(c.typ, c.value) else c.value
  }

  function AllKept(keep: Cell -> Value, row: seq<Cell>): (vs: seq<Value>)
    ensures |vs| == |row|
  {
    if row == [] then [] else [keep(row[0])] + AllKept(keep, row[1..])
  }

  lemma {:induction false} CellRead(c: Cell, tail: seq<byte>)
    requires Covered(c.typ) && WellTyped(c.typ, c.value) && !c.value.Nil? && EncodeCell(c).Some?
    ensures ReadValue(c.typ, EncodeCell(c).value + tail) == Piece(Kept(c), |EncodeCell(c).value|)
  {
    ValueRead(c.typ, c.value, tail);
  }

  /** The reader gives back what is kept of a cell from its bytes, whatever follows them. */
  ghost predicate Readable(enc: Cell -> Option<seq<byte>>, read: (FieldType, seq<byte>) -> Piece, keep: Cell -> Value,
                           c: Cell) {
    if c.value.Nil? then enc(c) == Some([]) && keep(c) == Nil
    else enc(c).Some? ==> forall tail :: read(c.typ, enc(c).value + tail) == Piece(keep(c), |enc(c).value|)
  }

  /** A cell is marked in the mask exactly when it is NULL. */
  predicate Agrees(mask: seq<byte>, types: seq<FieldType>, row: seq<Cell>, j: nat)
    requires j < |row| == |types| && |types| + 2 <= 8 * |mask|
  {
    types[j] == row[j].typ && (IsSet(mask, j + 2) <==> row[j].value.Nil?)
  }

  ghost predicate AllAgree(mask: seq<byte>, types: seq<FieldType>, row: seq<Cell>)
    requires |row| == |types| && |types| + 2 <= 8 * |mask|
  {
    forall j | 0 <= j < |row| :: Agrees(mask, types, row, j)
  }

  ghost predicate AllReadable(enc: Cell -> Option<seq<byte>>, read: (FieldType, seq<byte>) -> Piece,
                              keep: Cell -> Value, row: seq<Cell>) {
    forall j | 0 <= j < |row| :: Readable(enc, read, keep, row[j])
  }

  lemma {:induction false} CellStep(enc: Cell -> Option<seq<byte>>, read: (FieldType, seq<byte>) -> Piece,
                                    keep: Cell -> Value, mask: seq<byte>, types: seq<FieldType>, row: seq<Cell>,
                                    i: nat, values: seq<Value>)
    requires |row| == |types| && i < |row| && |types| + 2 <= 8 * |mask|
    requires Agrees(mask, types, row, i)
    requires Readable(enc, read, keep, row[i]) && Body(enc, row[i..]).Some?
    ensures Body(enc, row[i + 1..]).Some?
    ensures DecodeFrom(read, mask, types, i, Body(enc, row[i..]).value, values) ==
            DecodeFrom(read, mask, types, i + 1, Body(enc, row[i + 1..]).value, values + [keep(row[i])])
  {
    assert row[i..][1..] == row[i + 1..];
    var first, others := enc(row[i]).value, Body(enc, row[i + 1..]).value;
    assert (first + others)[|first|..] == others;
    assert row[i].value.Nil? ==> first + others == others;
  }

  /** Decoding a row returns what a reader returns for each of its cells. */
  lemma {:induction false} CellsRead(enc: Cell -> Option<seq<byte>>, read: (FieldType, seq<byte>) -> Piece,
                                     keep: Cell -> Value, mask: seq<byte>, types: seq<FieldType>, row: seq<Cell>,
                                     i: nat, values: seq<Value>)
    requires |row| == |types| && i <= |row| && |types| + 2 <= 8 * |mask|
    requires AllAgree(mask, types, row) && AllReadable(enc, read, keep, row)
    requires Body(enc, row[i..]).Some?
    ensures DecodeFrom(read, mask, types, i, Body(enc, row[i..]).value, values) == Row(values + AllKept(keep, row[i..]))
    decreases |row| - i
  {
    if i == |row| {
      assert values + AllKept(keep, row[i..]) == values;
    } else {
      CellStep(enc, read, keep, mask, types, row, i, values);
      CellsRead(enc, read, keep, mask, types, row, i + 1, values + [keep(row[i])]);
      assert row[i..][1..] == row[i + 1..];
      Associative(values, [keep(row[i])], AllKept(keep, row[i + 1..]));
    }
  }

  lemma {:induction false} MarksAgree(mask: seq<byte>, row: seq<Cell>)
    requires |mask| == MapLength(|row|) && Marks(mask, row, |row|)
    ensures AllAgree(mask, Types(row), row)
  {
    forall j | 0 <= j < |row| ensures Agrees(mask, Types(row), row, j) {
      assert IsSet(mask, j + 2) <==> row[j].value.Nil?;
    }
  }

  lemma {:induction false} PacketRead(enc: Cell -> Option<seq<byte>>, read: (FieldType, seq<byte>) -> Piece,
                                      keep: Cell -> Value, p: seq<byte>, row: seq<Cell>)
    requires IsPacket(enc, p, row) && AllReadable(enc, read, keep, row)
    ensures DecodeBinary(read, p, Types(row)) == Row(AllKept(keep, row))
  {
    var mask := p[1..1 + MapLength(|row|)];
    MarksAgree(mask, row);
    assert row[0..] == row;
    CellsRead(enc, read, keep, mask, Types(row), row, 0, []);
    assert [] + AllKept(keep, row) == AllKept(keep, row);
  }

  lemma {:induction false} RowReadable(row: seq<Cell>)
    requires Typed(row)
    ensures AllReadable(EncodeCell, ReadValue, Kept, row)
  {
    forall j | 0 <= j < |row| ensures Readable(EncodeCell, ReadValue, Kept, row[j]) {
      CellReadable(row[j]);
    }
  }

  /** A row packet is decoded to the same NULLs and, cell by cell, to what is kept of each value. */
  lemma {:induction false} RowRead(p: seq<byte>, row: seq<Cell>)
    requires Typed(row) && IsPacket(EncodeCell, p, row)
    ensures DecodeBinary(ReadValue, p, Types(row)) == Row(AllKept(Kept, row))
  {
    RowReadable(row);
    PacketRead(EncodeCell, ReadValue, Kept, p, row);
  }

  /** Of a row that can be packed, a value comes back unchanged exactly when it is in the range of its type. */
  lemma {:induction false} KeptIffInRange(row: seq<Cell>, i: nat)
    requires Typed(row) && Body(EncodeCell, row).Some? && i < |row|
    ensures Kept(row[i]) == row[i].value <==> InRange(row[i].typ, row[i].value)
  {
    Encodable(row, i);
    CanonicalIffInRange(row[i].typ, row[i].value);
  }

  lemma {:induction false} CellReadable(c: Cell)
    requires Covered(c.typ) && WellTyped(c.typ, c.value)
    ensures Readable(EncodeCell, ReadValue, Kept, c)
  {
    if !c.value.Nil? && EncodeCell(c).Some? {
      forall tail ensures ReadValue(c.typ, EncodeCell(c).value + tail) == Piece(Kept(c), |EncodeCell(c).value|) {
        CellRead(c, tail);
      }
    }
  }

  lemma {:induction false} Encodable(row: seq<Cell>, i: nat)
    requires i < |row| && Body(EncodeCell, row).Some?
    ensures EncodeCell(row[i]).Some?
  {
    if i > 0 {
      Encodable(row[1..], i - 1);
    }
  }

  /** A row can be packed exactly when every text for an unsigned 64-bit column is a numeral of such a number. */
  lemma {:induction false} PackedExactly(row: seq<Cell>)
    requires Typed(row)
    ensures Body(EncodeCell, row).None? <==> exists i | 0 <= i < |row| :: row[i].typ.Uint64? && row[i].value.Raw? && ParseUint(row[i].value.bytes).None?
  {
    if row != [] {
      assert forall i | 0 < i < |row| :: row[i] == row[1..][i - 1];
      assert EncodeCell(row[0]).None? <==> row[0].typ.Uint64? && row[0].value.Raw? && ParseUint(row[0].value.bytes).None?;
      PackedExactly(row[1..]);
    }
  }

  /** What is no row packet: one that does not start with zero, and one too short for its bitmap. */
  lemma {:induction false} HeaderChecked(content: seq<byte>, types: seq<FieldType>)
    ensures DecodeBinary(ReadValue, content, types) == Malformed <==> content != [] && content[0] != 0
    ensures content == [] || (content[0] == 0 && |content| < 1 + MapLength(|types|)) ==>
              DecodeBinary(ReadValue, content, types) == Broken
  {
    var m := MapLength(|types|);
    if |content| >= 1 + m { RowOrBroken(ReadValue, content[1..1 + m], types, 0, content[1 + m..], []); }
  }

  lemma {:induction false} RowOrBroken(read: (FieldType, seq<byte>) -> Piece, mask: seq<byte>, types: seq<FieldType>, i: nat,
                                       content: seq<byte>, values: seq<Value>)
    requires i <= |types| && |types| + 2 <= 8 * |mask|
    ensures DecodeFrom(read, mask, types, i, content, values) != Malformed
    decreases |types| - i
  {
    if i < |types| {
      if IsSet(mask, i + 2) {
        RowOrBroken(read, mask, types, i + 1, content, values + [Nil]);
      } else {
        var p := read(types[i], content);
        if p.Piece? && p.n <= |content| { RowOrBroken(read, mask, types, i + 1, content[p.n..], values + [p.value]); }
      }
    }
  }
}
