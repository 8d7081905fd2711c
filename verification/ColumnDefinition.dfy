/** Protocol::ColumnDefinition41, written by the proxy and read from a server. */
module ColumnDefinition {
  import opened Options
  import opened Bytes
  import opened Encoding
  import opened FieldTypes

  /** A column as it is described on the wire. */
  datatype Column = Column(
    database: seq<byte>, table: seq<byte>, orgTable: seq<byte>, name: seq<byte>, orgName: seq<byte>,
    charSet: nat, columnLength: nat, fieldType: FieldType, flags: nat, decimals: byte)

  /** Strings have lengths, and numbers the widths, of their Go types. */
  predicate Sized(c: Column) {
    && |c.database| < LIMIT && |c.table| < LIMIT && |c.orgTable| < LIMIT && |c.name| < LIMIT && |c.orgName| < LIMIT
    && c.charSet < 0x1_0000 && c.columnLength < 0x1_0000_0000
  }

  const DEF: seq<byte> := [100, 101, 102]

  /** Flags of the column, or those of its type when it has none, cut to 16 bits. */
  function SentFlags(c: Column): (f: nat)
    ensures f < 0x1_0000
  {
    if c.flags != 0 then c.flags % 0x1_0000 else TypeToMySQL(c.fieldType).flags
  }

  function Names(c: Column): seq<byte>
    requires Sized(c)
  {
    LenEncString(DEF) + LenEncString(c.database) + LenEncString(c.table) + LenEncString(c.orgTable)
    + LenEncString(c.name) + LenEncString(c.orgName)
  }

  function Fixed(charSet: nat, columnLength: nat, typ: byte, flags: nat, decimals: byte): (s: seq<byte>)
    ensures |s| == 13
  {
    [0x0c] + LittleEndian(charSet, 2) + LittleEndian(columnLength, 4) + [typ] + LittleEndian(flags, 2) + [decimals] + LittleEndian(0, 2)
  }

  function Tail(c: Column): (s: seq<byte>)
    ensures |s| == 13
  {
    Fixed(c.charSet, c.columnLength, TypeToMySQL(c.fieldType).typ, SentFlags(c), c.decimals)
  }

  function Encoded(c: Column): seq<byte>
    requires Sized(c)
  {
    Names(c) + Tail(c)
  }

  // ----- writing -----

  method WriteNames(data: array<byte>, c: Column) returns (pos: nat)
    requires Sized(c) && |Names(c)| <= data.Length
    modifies data
    ensures pos == |Names(c)| && data[..pos] == Names(c)
  {
    pos := 0;
    pos := WriteLenEncString(data, pos, DEF);
    assert [] + LenEncString(DEF) == LenEncString(DEF);
    pos := WriteLenEncString(data, pos, c.database);
    pos := WriteLenEncString(data, pos, c.table);
    pos := WriteLenEncString(data, pos, c.orgTable);
    pos := WriteLenEncString(data, pos, c.name);
    pos := WriteLenEncString(data, pos, c.orgName);
  }

  lemma {:induction false} FixedAfter(a: seq<byte>, charSet: nat, columnLength: nat, typ: byte, flags: nat,
                                      decimals: byte)
    ensures a + [0x0c] + LittleEndian(charSet, 2) + LittleEndian(columnLength, 4) + [typ]
            + LittleEndian(flags, 2) + [decimals] + LittleEndian(0, 2) == a + Fixed(charSet, columnLength, typ, flags, decimals)
  {
  }

  method WriteFixed(data: array<byte>, start: nat, charSet: nat, columnLength: nat, typ: byte, flags: nat,
                    decimals: byte)
    returns (pos: nat)
    requires start + 13 <= data.Length && charSet < 0x1_0000 && columnLength < 0x1_0000_0000 && flags < 0x1_0000
    modifies data
    ensures pos == start + 13 && data[..pos] == old(data[..start]) + Fixed(charSet, columnLength, typ, flags, decimals)
  {
    pos := start;
    pos := WriteByte(data, pos, 0x0c);
    pos := WriteUint16(data, pos, charSet);
    pos := WriteUint32(data, pos, columnLength);
    pos := WriteByte(data, pos, typ);
    pos := WriteUint16(data, pos, flags);
    pos := WriteByte(data, pos, decimals);
    pos := WriteUint16(data, pos, 0);
    FixedAfter(old(data[..start]), charSet, columnLength, typ, flags, decimals);
  }

  /** Packs a column definition into a buffer of the computed length; the check on that length never fails. */
  method WriteColumnDefinition(c: Column) returns (data: array<byte>, error: bool)
    requires Sized(c)
    ensures !error && data[..] == Encoded(c)
  {
    var length := 4 + LenEncStringSize(c.database) + LenEncStringSize(c.table) + LenEncStringSize(c.orgTable)
      + LenEncStringSize(c.name) + LenEncStringSize(c.orgName) + 1 + 2 + 4 + 1 + 2 + 1 + 2;
    data := new byte[length];
    assert length == |Encoded(c)|;
    var code := TypeToMySQL(c.fieldType);
    var flags := if c.flags != 0 then c.flags else code.flags;
    var pos := WriteNames(data, c);
    pos := WriteFixed(data, pos, c.charSet, c.columnLength, code.typ, flags % 0x1_0000, c.decimals);
    assert data[..pos] == data[..];
    error := pos != data.Length;
  }

  // ----- reading -----

  datatype Strings = Strings(database: seq<byte>, table: seq<byte>, orgTable: seq<byte>, name: seq<byte>, orgName: seq<byte>)

  /** Five strings in a row. */
  function FiveStrings(read: (seq<byte>, nat) -> Read<seq<byte>>, data: seq<byte>, pos: nat): Read<Strings> {
    var (database, pos) :- read(data, pos);
    var (table, pos) :- read(data, pos);
    var (orgTable, pos) :- read(data, pos);
    var (name, pos) :- read(data, pos);
    var (orgName, pos) :- read(data, pos);
    Got(Strings(database, table, orgTable, name, orgName), pos)
  }

  /** Six length-encoded strings, the first of which is skipped. */
  function ParseNames(data: seq<byte>): Read<Strings> {
    var (_, pos) :- SkipLenEncString(data, 0);
    FiveStrings(ReadLenEncString, data, pos)
  }

  datatype Numbers = Numbers(charSet: nat, columnLength: nat, fieldType: FieldType, flags: nat, decimals: byte)

  /** The fixed part behind its length byte, which is skipped. */
  function ParseFixed(data: seq<byte>, start: nat): Read<Numbers> {
    var (charSet, pos) :- ReadUint(data, start + 1, 2);
    var (columnLength, pos) :- ReadUint(data, pos, 4);
    var (typ, pos) :- ReadByte(data, pos);
    var (flags, pos) :- ReadUint(data, pos, 2);
    var fieldType := MySQLToType(typ, flags);
    if fieldType.None? then Cut
    else
      var (decimals, pos) :- ReadByte(data, pos);
      Got(Numbers(charSet, columnLength, fieldType.value, flags, decimals), pos)
  }

  /** A default value, where more than eight bytes are left. */
  function ParseDefault(data: seq<byte>, pos: nat): Read<Option<seq<byte>>> {
    if |data| <= pos + 8 then Got(None, pos)
    else
      var (length, start) :- ReadUint(data, pos, 8);
      if start + length >= INT_LIMIT then Panic
      else if start + length > |data| then Cut
      else Got(Some(data[start..start + length]), start + length)
  }

  predicate IsEOF(data: seq<byte>)
    requires data != []
  {
    data[0] == 0xfe && |data| < 9
  }

  datatype Parsed = Ok(strings: Strings, numbers: Numbers, default: Option<seq<byte>>) | EOF | Malformed | Crashed

  function Failure<T>(r: Read<T>): Parsed {
    if r.Panic? then Crashed else Malformed
  }

  function Parse(data: seq<byte>): Parsed {
    if data == [] then Crashed
    else if IsEOF(data) then EOF
    else
      var names := ParseNames(data);
      if names.IsFailure() then Failure(names)
      else
        var numbers := ParseFixed(data, names.next);
        if numbers.IsFailure() then Failure(numbers)
        else
          var default := ParseDefault(data, numbers.next);
          if default.IsFailure() then Failure(default) else Ok(names.value, numbers.value, default.value)
  }

  function Unit<T>(r: Read<T>): Read<()> {
    if r.Got? then Got((), r.next) else r.PropagateFailure()
  }

  /** The field a column definition is read into. */
  class Field {
    var database: seq<byte>
    var table: seq<byte>
    var orgTable: seq<byte>
    var name: seq<byte>
    var orgName: seq<byte>
    var charSet: nat
    var columnLength: nat
    var fieldType: FieldType
    var flags: nat
    var decimals: byte
    var defaultValue: seq<byte>

    function GetStrings(): Strings
      reads this
    {
      Strings(database, table, orgTable, name, orgName)
    }

    function GetNumbers(): Numbers
      reads this
    {
      Numbers(charSet, columnLength, fieldType, flags, decimals)
    }

    method ReadNames(data: seq<byte>) returns (r: Read<()>)
      modifies `database, `table, `orgTable, `name, `orgName
      ensures r == Unit(ParseNames(data))
      ensures r.Got? ==> GetStrings() == ParseNames(data).value
    {
      var catalog := SkipLenEncString(data, 0);
      if !catalog.Got? { return catalog.PropagateFailure(); }
      var next := ReadLenEncString(data, catalog.next);
      if !next.Got? { return next.PropagateFailure(); }
      database := next.value;
      next := ReadLenEncString(data, next.next);
      if !next.Got? { return next.PropagateFailure(); }
      table := next.value;
      next := ReadLenEncString(data, next.next);
      if !next.Got? { return next.PropagateFailure(); }
      orgTable := next.value;
      next := ReadLenEncString(data, next.next);
      if !next.Got? { return next.PropagateFailure(); }
      name := next.value;
      next := ReadLenEncString(data, next.next);
      if !next.Got? { return next.PropagateFailure(); }
      orgName := next.value;
      return Got((), next.next);
    }

    method ReadFixed(data: seq<byte>, start: nat) returns (r: Read<()>)
      modifies `charSet, `columnLength, `fieldType, `flags, `decimals
      ensures r == Unit(ParseFixed(data, start))
      ensures r.Got? ==> GetNumbers() == ParseFixed(data, start).value
    {
      var number := ReadUint(data, start + 1, 2);
      if !number.Got? { return number.PropagateFailure(); }
      charSet := number.value;
      number := ReadUint(data, number.next, 4);
      if !number.Got? { return number.PropagateFailure(); }
      columnLength := number.value;
      var typ := ReadByte(data, number.next);
      if !typ.Got? { return typ.PropagateFailure(); }
      number := ReadUint(data, typ.next, 2);
      if !number.Got? { return number.PropagateFailure(); }
      flags := number.value;
      var known := MySQLToType(typ.value, flags);
      if known.None? { return Cut; }
      fieldType := known.value;
      var last := ReadByte(data, number.next);
      if !last.Got? { return last.PropagateFailure(); }
      decimals := last.value;
      return Got((), last.next);
    }

    /** A failed read leaves the fields read before the failure. */
    method ReadColumnDefinition(data: seq<byte>) returns (r: Outcome)
      modifies this
      ensures (r == Fine <==> Parse(data).Ok?) && (r == AtEOF <==> Parse(data).EOF?)
      ensures (r == Bad <==> Parse(data).Malformed?) && (r == Crash <==> Parse(data).Crashed?)
      ensures r == Fine ==> GetStrings() == Parse(data).strings && GetNumbers() == Parse(data).numbers
      ensures r == Fine ==> defaultValue == if Parse(data).default.Some? then Parse(data).default.value else old(defaultValue)
    {
      if data == [] { return Crash; }
      if IsEOF(data) { return AtEOF; }
      var names := ReadNames(data);
      if names.IsFailure() { return Kind(Failure(names)); }
      var numbers := ReadFixed(data, names.next);
      if numbers.IsFailure() { return Kind(Failure(numbers)); }
      var default := ParseDefault(data, numbers.next);
      if default.IsFailure() { return Kind(Failure(default)); }
      if default.value.Some? { defaultValue := default.value.value; }
      return Fine;
    }
  }

  datatype Outcome = Fine | AtEOF | Bad | Crash

  function Kind(p: Parsed): Outcome {
    match p case Ok(_, _, _) => Fine case EOF => AtEOF case Malformed => Bad case Crashed => Crash
  }

  // ----- round trip -----

  lemma {:induction false} StringRead(data: seq<byte>, before: seq<byte>, s: seq<byte>)
    requires |s| < LIMIT && At(data, 0, before + LenEncString(s)) && |data| < INT_LIMIT
    ensures At(data, 0, before) && ReadLenEncString(data, |before|) == Got(s, |before + LenEncString(s)|)
  {
    AtBoth(data, 0, before, LenEncString(s));
    ReadLenEncStringBack(data, |before|, s);
  }

  /** Three strings in a row. */
  lemma {:induction false} StringsRead(data: seq<byte>, before: seq<byte>, s: seq<byte>, t: seq<byte>, u: seq<byte>)
    requires |s| < LIMIT && |t| < LIMIT && |u| < LIMIT && |data| < INT_LIMIT
    requires At(data, 0, before + LenEncString(s) + LenEncString(t) + LenEncString(u))
    ensures At(data, 0, before)
    ensures ReadLenEncString(data, |before|) == Got(s, |before + LenEncString(s)|)
    ensures ReadLenEncString(data, |before + LenEncString(s)|) == Got(t, |before + LenEncString(s) + LenEncString(t)|)
    ensures ReadLenEncString(data, |before + LenEncString(s) + LenEncString(t)|) ==
            Got(u, |before + LenEncString(s) + LenEncString(t) + LenEncString(u)|)
  {
    StringRead(data, before + LenEncString(s) + LenEncString(t), u);
    StringRead(data, before + LenEncString(s), t);
    StringRead(data, before, s);
  }

  lemma {:induction false} NamesRead(data: seq<byte>, c: Column)
    requires Sized(c) && At(data, 0, Names(c)) && |data| < INT_LIMIT
    ensures ReadLenEncString(data, 0).Got?
    ensures ParseNames(data) == Got(Strings(c.database, c.table, c.orgTable, c.name, c.orgName), |Names(c)|)
  {
    var middle := LenEncString(DEF) + LenEncString(c.database) + LenEncString(c.table);
    StringsRead(data, middle, c.orgTable, c.name, c.orgName);
    assert middle == [] + LenEncString(DEF) + LenEncString(c.database) + LenEncString(c.table);
    StringsRead(data, [], DEF, c.database, c.table);
    SkipAgrees(data, 0);
  }

  lemma {:induction false} FixedRead(data: seq<byte>, start: nat, charSet: nat, columnLength: nat, typ: byte,
                                     flags: nat, decimals: byte)
    requires charSet < 0x1_0000 && columnLength < 0x1_0000_0000 && flags < 0x1_0000 && MySQLToType(typ, flags).Some?
    requires At(data, start, Fixed(charSet, columnLength, typ, flags, decimals))
    ensures ParseFixed(data, start) ==
            Got(Numbers(charSet, columnLength, MySQLToType(typ, flags).value, flags, decimals), start + 11)
  {
    var a: seq<byte> := [0x0c];
    var b := a + LittleEndian(charSet, 2);
    var d := b + LittleEndian(columnLength, 4);
    var e := d + [typ];
    var f := e + LittleEndian(flags, 2);
    AtBoth(data, start, f + [decimals], LittleEndian(0, 2));
    AtBoth(data, start, f, [decimals]);
    AtBoth(data, start, e, LittleEndian(flags, 2));
    AtBoth(data, start, d, [typ]);
    AtBoth(data, start, b, LittleEndian(columnLength, 4));
    AtBoth(data, start, a, LittleEndian(charSet, 2));
    Powers();
    ReadUintBack(data, start + 1, charSet, 2);
    ReadUintBack(data, start + 3, columnLength, 4);
    ReadByteBack(data, start + 7, typ);
    ReadUintBack(data, start + 8, flags, 2);
    ReadByteBack(data, start + 10, decimals);
  }

  /**
   * A column definition is read back with its names, character set, length, decimals and flags as sent; its type
   * comes back exactly when the type table lists it and the flags sent agree with its sign.
   */
  lemma {:induction false} ColumnRead(c: Column)
    requires Sized(c) && |Encoded(c)| < INT_LIMIT
    ensures var t := Modify(Base(c.fieldType), SentFlags(c));
            && Parse(Encoded(c)) == Ok(Strings(c.database, c.table, c.orgTable, c.name, c.orgName),
                                       Numbers(c.charSet, c.columnLength, t, SentFlags(c), c.decimals), None)
            // the flags given, cut to 16 bits, or those of the type when none are given
            && SentFlags(c) == (if c.flags == 0 then TypeToMySQL(c.fieldType).flags else c.flags % 65536)
            && (t == c.fieldType <==> Tabled(c.fieldType) &&
                                      (Integral(c.fieldType) ==> HasUnsignedFlag(SentFlags(c)) == Unsigned(c.fieldType)))
  {
    var data := Encoded(c);
    AtBoth(data, 0, Names(c), Tail(c));
    NamesRead(data, c);
    TypeRecovered(c.fieldType, SentFlags(c));
    FixedRead(data, |Names(c)|, c.charSet, c.columnLength, TypeToMySQL(c.fieldType).typ, SentFlags(c), c.decimals);
    assert data[0] == 3;
  }

  // ----- end of the columns, default values, and definitions cut short -----

  /** A packet of at most eight bytes that starts with 254 ends the columns; only an empty one crashes without being read. */
  lemma {:induction false} EndOfColumns(data: seq<byte>)
    ensures Parse(data) == EOF <==> 1 <= |data| <= 8 && data[0] == 254
    ensures data == [] ==> Parse(data) == Crashed
  {
  }

  /** A default value is read where more than eight bytes are left: a length of eight bytes and that many bytes. */
  lemma {:induction false} DefaultRead(data: seq<byte>, pos: nat)
    requires pos <= |data| < INT_LIMIT
    ensures |data| - pos <= 8 ==> ParseDefault(data, pos) == Got(None, pos)
    ensures |data| - pos >= 9 ==>
              var n := Number(data[pos..pos + 8]);
              ParseDefault(data, pos) ==
              if n <= |data| - pos - 8 then Got(Some(data[pos + 8..pos + 8 + n]), pos + 8 + n)
              else if pos + 8 + n < 9223372036854775808 then Cut
              else Panic
  {
  }

  /** What is read from the first `k` bytes of a packet: the same as from all of it, or too little. */
  predicate Truncated<T(==)>(whole: Read<T>, part: Read<T>, k: nat) {
    whole.Got? ==> part == if whole.next <= k then whole else Cut
  }

  lemma {:induction false} UintTruncated(data: seq<byte>, pos: nat, n: nat, k: nat)
    requires k <= |data|
    ensures Truncated(ReadUint(data, pos, n), ReadUint(data[..k], pos, n), k)
  {
    if pos + n <= k { assert data[..k][pos..pos + n] == data[pos..pos + n]; }
  }

  lemma {:induction false} ByteTruncated(data: seq<byte>, pos: nat, k: nat)
    requires k <= |data|
    ensures Truncated(ReadByte(data, pos), ReadByte(data[..k], pos), k)
  {
  }

  lemma {:induction false} IntTruncated(data: seq<byte>, pos: nat, k: nat)
    requires k <= |data|
    ensures Truncated(ReadLenEncInt(data, pos), ReadLenEncInt(data[..k], pos), k)
    ensures ReadLenEncInt(data, pos).Got? ==> ReadLenEncInt(data, pos).next > pos
  {
    UintTruncated(data, pos + 1, 2, k);
    UintTruncated(data, pos + 1, 3, k);
    UintTruncated(data, pos + 1, 8, k);
  }

  lemma {:induction false} StringTruncated(data: seq<byte>, pos: nat, k: nat)
    requires k <= |data| < INT_LIMIT
    ensures Truncated(ReadLenEncString(data, pos), ReadLenEncString(data[..k], pos), k)
    ensures ReadLenEncString(data, pos).Got? ==> ReadLenEncString(data, pos).next > pos
  {
    IntTruncated(data, pos, k);
    var r := ReadLenEncString(data, pos);
    if r.Got? && r.next <= k {
      var start := ReadLenEncInt(data, pos).next;
      assert data[..k][start..r.next] == data[start..r.next];
    }
  }

  lemma {:induction false} FiveTruncated(read: (seq<byte>, nat) -> Read<seq<byte>>, data: seq<byte>, pos: nat, k: nat)
    requires k <= |data|
    requires forall p: nat :: Truncated(read(data, p), read(data[..k], p), k) && (read(data, p).Got? ==> read(data, p).next > p)
    ensures Truncated(FiveStrings(read, data, pos), FiveStrings(read, data[..k], pos), k)
    ensures FiveStrings(read, data, pos).Got? ==> FiveStrings(read, data, pos).next > pos
  {
  }

  lemma {:induction false} NamesTruncated(data: seq<byte>, k: nat)
    requires k <= |data| < INT_LIMIT && ReadLenEncString(data, 0).Got?
    ensures Truncated(ParseNames(data), ParseNames(data[..k]), k)
  {
    StringTruncated(data, 0, k);
    SkipAgrees(data, 0);
    SkipAgrees(data[..k], 0);
    forall p: nat
      ensures Truncated(ReadLenEncString(data, p), ReadLenEncString(data[..k], p), k)
      ensures ReadLenEncString(data, p).Got? ==> ReadLenEncString(data, p).next > p
    {
      StringTruncated(data, p, k);
    }
    FiveTruncated(ReadLenEncString, data, ReadLenEncString(data, 0).next, k);
  }

  lemma {:induction false} FixedTruncated(data: seq<byte>, start: nat, k: nat)
    requires k <= |data|
    ensures Truncated(ParseFixed(data, start), ParseFixed(data[..k], start), k)
  {
    UintTruncated(data, start + 1, 2, k);
    UintTruncated(data, start + 3, 4, k);
    ByteTruncated(data, start + 7, k);
    UintTruncated(data, start + 8, 2, k);
    ByteTruncated(data, start + 10, k);
  }

  /** What the parts of a packet give, as far as they are read, decides what the first `k` bytes give. */
  lemma {:induction false} ParseTruncated(data: seq<byte>, k: nat, names: Read<Strings>, numbers: Read<Numbers>)
    requires 0 < k <= |data| < INT_LIMIT && data[0] != 0xfe && ReadLenEncString(data, 0).Got?
    requires names == ParseNames(data) && names.Got? && numbers == ParseFixed(data, names.next) && numbers.Got?
    requires names.next <= numbers.next && |data| <= numbers.next + 8
    ensures Parse(data[..k]) == if k < numbers.next then Malformed else Ok(names.value, numbers.value, None)
  {
    NamesTruncated(data, k);
    FixedTruncated(data, names.next, k);
  }

  /** A definition that is cut short anywhere in front of its two filler bytes is malformed; it never crashes or passes for another. */
  lemma {:induction false} CutShort(c: Column, k: nat)
    requires Sized(c) && k <= |Encoded(c)| < INT_LIMIT
    ensures Parse(Encoded(c)[..k]) ==
            if k == 0 then Crashed else if k < |Encoded(c)| - 2 then Malformed else Parse(Encoded(c))
  {
    var data := Encoded(c);
    assert data[..|data|] == data;
    if k > 0 {
      Parts(c);
      ParseTruncated(data, k, ParseNames(data), ParseFixed(data, |Names(c)|));
      ParseTruncated(data, |data|, ParseNames(data), ParseFixed(data, |Names(c)|));
    }
  }

  /** How far the names and the fixed part of a definition go. */
  lemma {:induction false} Parts(c: Column)
    requires Sized(c) && |Encoded(c)| < INT_LIMIT
    ensures var data, numbers := Encoded(c), ParseFixed(Encoded(c), |Names(c)|);
            && data != [] && data[0] == 3 && ReadLenEncString(data, 0).Got?
            && ParseNames(data).Got? && ParseNames(data).next == |Names(c)|
            && numbers.Got? && numbers.next == |data| - 2 == |Names(c)| + 11
  {
    var data := Encoded(c);
    AtBoth(data, 0, Names(c), Tail(c));
    NamesRead(data, c);
    TypeRecovered(c.fieldType, SentFlags(c));
    FixedRead(data, |Names(c)|, c.charSet, c.columnLength, TypeToMySQL(c.fieldType).typ, SentFlags(c), c.decimals);
  }

  /** Where the names are there but one of them ends beyond a signed integer, or the default value does, reading crashes. */
  lemma {:induction false} CrashesExactly(data: seq<byte>)
    requires data != [] && !IsEOF(data)
    ensures var names := ParseNames(data);
            Parse(data) == Crashed <==>
              names.Panic? || (names.Got? && var numbers := ParseFixed(data, names.next);
                                             numbers.Got? && ParseDefault(data, numbers.next).Panic?)
  {
  }

  /** A length of 2^63 or more for the first name behind the catalog crashes; a later one does so in the same way. */
  lemma {:induction false} HugeNameCrashes(data: seq<byte>)
    requires data != [] && !IsEOF(data) && SkipLenEncString(data, 0).Got?
    requires ReadLenEncInt(data, SkipLenEncString(data, 0).next).Got?
    requires ReadLenEncInt(data, SkipLenEncString(data, 0).next).value >= 9223372036854775808
    ensures Parse(data) == Crashed
  {
    assert ReadLenEncString(data, SkipLenEncString(data, 0).next).Panic?;
  }
}
