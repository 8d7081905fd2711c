/** Rows of the text protocol. */
module TextRows {
  import opened Lists
  import opened Bytes
  import opened Encoding

  // ----- reading length-encoded values at the front of a slice -----

  datatype Length = Length(num: nat, isNull: bool, n: nat) | Overrun

  function Prefix(b: seq<byte>, k: nat): Length {
    if |b| < 1 + k then Overrun else Length(Number(b[1..1 + k]), false, 1 + k)
  }

  /** A length, or NULL, and the number of bytes it takes; an empty slice counts as NULL. */
  function ReadLengthEncodedInteger(b: seq<byte>): Length {
    if b == [] then Length(0, true, 1)
    else if b[0] == 0xfb then Length(0, true, 1)
    else if b[0] == 0xfc then Prefix(b, 2)
    else if b[0] == 0xfd then Prefix(b, 3)
    else if b[0] == 0xfe then Prefix(b, 8)
    else Length(b[0], false, 1)
  }

  datatype Text = Text(value: seq<byte>, isNull: bool, n: nat) | EOF | Crash

  function ReadLengthEncodedString(b: seq<byte>): (t: Text)
    ensures t.Text? ==> t.n <= |b|
  {
    var length := ReadLengthEncodedInteger(b);
    if length.Overrun? then Crash
    else if length.num < 1 then if length.n > |b| then Crash else Text([], length.isNull, length.n)
    else if length.n + length.num >= INT_LIMIT then Crash
    else if |b| >= length.n + length.num then Text(b[length.n..length.n + length.num], false, length.n + length.num)
    else EOF
  }

  lemma {:induction false} LengthRead(n: nat, tail: seq<byte>)
    requires n < LIMIT
    ensures ReadLengthEncodedInteger(LenEnc(n) + tail) == Length(n, false, |LenEnc(n)|)
  {
    var b, k := LenEnc(n) + tail, |LenEnc(n)| - 1;
    Powers();
    if k > 0 {
      assert b[1..1 + k] == LittleEndian(n, k);
      NumberOfBytes(n, k);
    }
  }

  /** A length-encoded string is read back whatever follows it, and told apart from NULL even when it is empty. */
  lemma {:induction false} StringRead(s: seq<byte>, tail: seq<byte>)
    requires |s| + 9 < INT_LIMIT
    ensures ReadLengthEncodedString(LenEncString(s) + tail) == Text(s, false, |LenEncString(s)|)
  {
    Associative(LenEnc(|s|), s, tail);
    LengthRead(|s|, s + tail);
  }

  /** A long string: the bytes announced, an error if there are fewer, and a crash if their end is beyond a signed integer. */
  lemma {:induction false} LongStringRead(b: seq<byte>)
    requires |b| >= 9 && b[0] == 254
    ensures var n := Number(b[1..9]);
            ReadLengthEncodedString(b) ==
            if n == 0 then Text([], false, 9)
            else if 9 + n >= 9223372036854775808 then Crash
            else if 9 + n <= |b| then Text(b[9..9 + n], false, 9 + n)
            else EOF
  {
  }

  // ----- rows -----

  datatype Cell = Null | Bytes(value: seq<byte>)

  const NULL_VALUE: byte := 0xfb

  predicate Sized(row: seq<Cell>) {
    forall i | 0 <= i < |row| :: row[i].Bytes? ==> |row[i].value| + 9 < INT_LIMIT
  }

  function CellBytes(c: Cell): seq<byte>
    requires c.Bytes? ==> |c.value| < LIMIT
  {
    if c.Null? then [NULL_VALUE] else LenEncString(c.value)
  }

  function RowBytes(row: seq<Cell>): seq<byte>
    requires Sized(row)
  {
    if row == [] then [] else CellBytes(row[0]) + RowBytes(row[1..])
  }

  function CellSize(c: Cell): (size: nat)
    requires c.Bytes? ==> |c.value| < LIMIT
    ensures size == |CellBytes(c)|
  {
    if c.Null? then 1 else LenEncIntSize(|c.value|) + |c.value|
  }

  method WriteCell(data: array<byte>, pos: nat, c: Cell) returns (next: nat)
    requires c.Bytes? ==> |c.value| < LIMIT
    requires pos + |CellBytes(c)| <= data.Length
    modifies data
    ensures next == pos + |CellBytes(c)| && data[..next] == old(data[..pos]) + CellBytes(c)
  {
    if c.Null? {
      next := WriteByte(data, pos, NULL_VALUE);
    } else {
      next := WriteLenEncInt(data, pos, |c.value|);
      next := WriteEOFString(data, next, c.value);
      Associative(old(data[..pos]), LenEnc(|c.value|), c.value);
    }
  }

  method RowSize(row: seq<Cell>) returns (length: nat)
    requires Sized(row)
    ensures length == |RowBytes(row)|
  {
    length := 0;
    var i := 0;
    assert row[0..] == row;
    while i < |row|
      invariant 0 <= i <= |row| && length + |RowBytes(row[i..])| == |RowBytes(row)|
    {
      assert row[i..][1..] == row[i + 1..];
      length := length + CellSize(row[i]);
      i := i + 1;
    }
  }

  /** Packs a row into a buffer of the computed length; the check on that length never fails. */
  method WriteTextRow(row: seq<Cell>) returns (data: array<byte>, error: bool)
    requires Sized(row)
    ensures !error && data[..] == RowBytes(row)
  {
    var length := RowSize(row);
    data := new byte[length];
    var pos, i := 0, 0;
    assert row[0..] == row;
    assert data[..0] + RowBytes(row) == RowBytes(row);
    while i < |row|
      invariant 0 <= i <= |row| && 0 <= pos && pos + |RowBytes(row[i..])| == length
      invariant data[..pos] + RowBytes(row[i..]) == RowBytes(row)
    {
      assert row[i..][1..] == row[i + 1..];
      Associative(data[..pos], CellBytes(row[i]), RowBytes(row[i + 1..]));
      pos := WriteCell(data, pos, row[i]);
      i := i + 1;
    }
    assert data[..pos] + [] == data[..pos] == data[..];
    error := pos != length;
  }

  // ----- decoding -----

  datatype Decoded = Row(cells: seq<Cell>) | Failed | Broken

  function CellOf(t: Text): Cell
    requires t.Text?
  {
    if t.isNull then Null else Bytes(t.value)
  }

  /** Decodes the columns that are left with `read`, behind the cells decoded so far. */
  function DecodeText(read: seq<byte> -> Text, content: seq<byte>, columns: nat, cells: seq<Cell>): Decoded
    decreases columns
  {
    if columns == 0 then Row(cells)
    else
      var t := read(content);
      if t.EOF? then Failed
      else if t.Crash? || t.n > |content| then Broken
      else DecodeText(read, content[t.n..], columns - 1, cells + [CellOf(t)])
  }

  /** A row received from a server, decoded at most once. */
  class TextRow {
    const content: seq<byte>
    const columns: nat
    var decoded: bool
    var values: seq<Cell>

    constructor (content: seq<byte>, columns: nat)
      ensures this.content == content && this.columns == columns && !decoded && values == []
    {
      this.content, this.columns, decoded, values := content, columns, false, [];
    }

    /** A second call repeats the values; after a failure they are empty and no error is reported. */
    method Decode() returns (r: Decoded)
      modifies this
      ensures decoded
      ensures old(decoded) ==> r == Row(old(values)) && values == old(values)
      ensures !old(decoded) ==> r == DecodeText(ReadLengthEncodedString, content, columns, []) && values == if r.Row? then r.cells else old(values)
    {
      if decoded { return Row(values); }
      decoded := true;
      r := Scan(ReadLengthEncodedString, content, columns);
      if r.Row? { values := r.cells; }
    }
  }

  method Scan(read: seq<byte> -> Text, content: seq<byte>, columns: nat) returns (r: Decoded)
    ensures r == DecodeText(read, content, columns, [])
  {
    var dest: seq<Cell> := [];
    var pos, i := 0, 0;
    assert content[0..] == content;
    while i < columns
      invariant 0 <= i <= columns && 0 <= pos <= |content|
      invariant DecodeText(read, content[pos..], columns - i, dest) == DecodeText(read, content, columns, [])
    {
      var t := read(content[pos..]);
      if t.EOF? { return Failed; }
      if t.Crash? || pos + t.n > |content| { return Broken; }
      assert content[pos..][t.n..] == content[pos + t.n..];
      dest := dest + [CellOf(t)];
      pos := pos + t.n;
      i := i + 1;
    }
    return Row(dest);
  }

  lemma {:induction false} CellRead(c: Cell, tail: seq<byte>)
    requires c.Bytes? ==> |c.value| + 9 < INT_LIMIT
    ensures var t := ReadLengthEncodedString(CellBytes(c) + tail);
            t.Text? && t.n == |CellBytes(c)| && CellOf(t) == c
  {
    if c.Bytes? {
      StringRead(c.value, tail);
    }
  }

  /** Every row of NULLs and strings survives writing and decoding, whatever follows it. */
  lemma {:induction false} RowRead(row: seq<Cell>, tail: seq<byte>, cells: seq<Cell>)
    requires Sized(row)
    ensures DecodeText(ReadLengthEncodedString, RowBytes(row) + tail, |row|, cells) == Row(cells + row)
    decreases |row|
  {
    if row == [] {
      assert cells + row == cells;
    } else {
      var first, others := CellBytes(row[0]), RowBytes(row[1..]) + tail;
      Associative(first, RowBytes(row[1..]), tail);
      CellRead(row[0], others);
      assert (first + others)[|first|..] == others;
      RowRead(row[1..], tail, cells + [row[0]]);
      assert cells + [row[0]] + row[1..] == cells + row;
    }
  }
}
