/** Integers and strings in the binary protocol. */
module BinaryValues {
  import opened Lists
  import opened Modulo
  import opened Options
  import opened Bytes
  import opened Encoding
  import opened FieldTypes
  import opened TextRows
  import Dec = Decimal

  datatype Value = Nil | Int(number: int) | Raw(bytes: seq<byte>)

  /** Bytes of an integer type on the wire. */
  function Width(t: FieldType): nat {
    match t
    case Tiny => 1 case Uint8 => 1
    case Short => 2 case Year => 2 case Uint16 => 2
    case Int24 => 4 case Long => 4 case Uint24 => 4 case Uint32 => 4
    case LongLong => 8 case Uint64 => 8
    case _ => 0
  }

  predicate Textual(t: FieldType) {
    || t.Decimal? || t.NewDecimal? || t.VarChar? || t.Bit? || t.Enum? || t.Set? || t.TinyBLOB? || t.MediumBLOB?
    || t.LongBLOB? || t.BLOB? || t.VarString? || t.String? || t.Geometry? || t.JSON?
  }

  /** The value has the Go type that the encoder asserts for its column type. */
  predicate WellTyped(t: FieldType, v: Value) {
    || v.Nil?
    || (Width(t) > 0 && v.Int?)
    || (t.Uint64? && v.Raw?)
    || (Textual(t) && v.Raw? && |v.bytes| + 9 < INT_LIMIT)
  }

  // ----- numerals -----

  function Chars(b: seq<byte>): (s: string)
    ensures |s| == |b|
  {
    if b == [] then [] else Chars(b[..|b| - 1]) + [b[|b| - 1] as char]
  }

  lemma {:induction false} CharsAppend(a: seq<byte>, b: seq<byte>)
    ensures Chars(a + b) == Chars(a) + Chars(b)
  {
    if b == [] {
      assert a + b == a;
    } else {
      assert (a + b)[..|a + b| - 1] == a + b[..|b| - 1];
      CharsAppend(a, b[..|b| - 1]);
    }
  }

  function CodeOf(c: char): byte
    requires Dec.IsDigit(c)
  {
    c as int
  }

  /** The numeral as bytes. */
  function Ascii(s: string): (b: seq<byte>)
    requires forall c | c in s :: Dec.IsDigit(c)
    ensures |b| == |s|
  {
    if s == [] then [] else Ascii(s[..|s| - 1]) + [CodeOf(s[|s| - 1])]
  }

  lemma {:induction false} CharsOfAscii(s: string)
    requires forall c | c in s :: Dec.IsDigit(c)
    ensures Chars(Ascii(s)) == s
  {
    if s != [] {
      var init := Ascii(s[..|s| - 1]);
      CharsOfAscii(s[..|s| - 1]);
      assert Ascii(s)[..|s| - 1] == init;
    }
  }

  lemma {:induction false} AsciiOfChars(b: seq<byte>)
    requires forall c | c in Chars(b) :: Dec.IsDigit(c)
    ensures Ascii(Chars(b)) == b
  {
    if b != [] {
      var init := b[..|b| - 1];
      assert Chars(b)[..|b| - 1] == Chars(init);
      AsciiOfChars(init);
      assert b == init + [b[|b| - 1]];
    }
  }

  predicate Numeral(s: string) {
    s != [] && forall c | c in s :: Dec.IsDigit(c)
  }

  /** `strconv.ParseUint` in base 10 with 64 bits. */
  function ParseUint(b: seq<byte>): Option<nat> {
    var s := Chars(b);
    if Numeral(s) && Dec.Parse(s) < LIMIT then Some(Dec.Parse(s)) else None
  }

  lemma {:induction false} NumeralLength(n: nat, k: nat)
    requires k > 0 && n < Ten(k)
    ensures |Dec.Natural(n)| <= k
  {
    if n >= 10 {
      NumeralLength(n / 10, k - 1);
    }
  }

  function Ten(k: nat): nat {
    if k == 0 then 1 else 10 * Ten(k - 1)
  }

  lemma {:induction false} TwentyDigits()
    ensures Ten(20) == 100_000_000_000_000_000_000
  {
    assert Ten(5) == 100_000;
    assert Ten(10) == 100_000 * Ten(5);
    assert Ten(15) == 100_000 * Ten(10);
    assert Ten(20) == 100_000 * Ten(15);
  }

  method PutDigit(a: array<byte>, i: nat, d: nat)
    requires i < a.Length && d < 10
    modifies a
    ensures a[i..] == [d + 0x30] + old(a[i + 1..])
  {
    a[i] := d + 0x30;
    assert a[i + 1..] == old(a[i + 1..]);
  }

  lemma {:induction false} OneDigit(d: nat)
    requires d < 10
    ensures Chars([d + 0x30]) == [Dec.Digit(d)]
  {
  }

  lemma {:induction false} DigitBefore(rest: seq<byte>, n: nat)
    requires n >= 10
    ensures Dec.Natural(n) + Chars(rest) == Dec.Natural(n / 10) + Chars([n % 10 + 0x30] + rest)
    ensures |Dec.Natural(n)| == |Dec.Natural(n / 10)| + 1
  {
    var d := n % 10;
    OneDigit(d);
    CharsAppend([d + 0x30], rest);
    Associative(Dec.Natural(n / 10), [Dec.Digit(d)], Chars(rest));
  }

  lemma {:induction false} LastDigit(rest: seq<byte>, n: nat)
    requires n < 10
    ensures Dec.Natural(n) + Chars(rest) == Chars([n + 0x30] + rest)
  {
    OneDigit(n);
    CharsAppend([n + 0x30], rest);
  }

  /** Fills a buffer of 20 digits from its end. */
  method Uint64ToString(m: nat) returns (s: seq<byte>)
    requires m < LIMIT
    ensures s == Ascii(Dec.Natural(m))
  {
    var a := new byte[20];
    var i, n := 20, m;
    TwentyDigits();
    NumeralLength(m, 20);
    assert Chars(a[20..]) == [];
    while n >= 10
      invariant 0 <= n < LIMIT && |Dec.Natural(n)| <= i <= 20
      invariant Dec.Natural(n) + Chars(a[i..]) == Dec.Natural(m)
    {
      DigitBefore(a[i..], n);
      i := i - 1;
      var q := n / 10;
      PutDigit(a, i, n - q * 10);
      n := q;
    }
    LastDigit(a[i..], n);
    i := i - 1;
    PutDigit(a, i, n);
    AsciiOfChars(a[i..]);
    return a[i..];
  }

  /** The numeral of a 64-bit number is parsed back. */
  lemma {:induction false} ParseUintBack(n: nat)
    requires n < LIMIT
    ensures ParseUint(Ascii(Dec.Natural(n))) == Some(n)
  {
    CharsOfAscii(Dec.Natural(n));
    Dec.ParseNatural(n);
  }

  // ----- encoding -----

  /** The bytes of a value; an unsigned 64-bit value given as text must be a numeral. */
  function Encode(t: FieldType, v: Value): Option<seq<byte>>
    requires WellTyped(t, v) && !v.Nil?
  {
    if Textual(t) then Some(LenEncString(v.bytes))
    else if v.Int? then Some(LittleEndian(v.number % Power(Width(t)), Width(t)))
    else
      var n := ParseUint(v.bytes);
      if n.None? then None else Some(LittleEndian(n.value, 8))
  }

  /** The length predicted for a value. */
  function Size(t: FieldType, v: Value): (size: nat)
    requires WellTyped(t, v) && !v.Nil?
    ensures Encode(t, v).Some? ==> size == |Encode(t, v).value|
  {
    if Textual(t) then LenEncIntSize(|v.bytes|) + |v.bytes| else Width(t)
  }

  /** Writes a number of one of the four widths into a buffer of its own. */
  method WriteNumber(n: nat, w: nat) returns (out: seq<byte>)
    requires (w == 1 || w == 2 || w == 4 || w == 8) && n < Power(w)
    ensures out == LittleEndian(n, w)
  {
    Powers();
    var data := new byte[w];
    assert data[..0] == [];
    var next;
    if w == 1 {
      next := WriteByte(data, 0, n);
      assert LittleEndian(n, 1) == [n];
    } else if w == 2 {
      next := WriteUint16(data, 0, n);
    } else if w == 4 {
      next := WriteUint32(data, 0, n);
    } else {
      next := WriteUint64(data, 0, n);
    }
    assert data[..next] == data[..];
    return data[..];
  }

  method WriteString(s: seq<byte>) returns (out: seq<byte>)
    requires |s| < LIMIT
    ensures out == LenEncString(s)
  {
    var data := new byte[LenEncIntSize(|s|) + |s|];
    assert data[..0] == [];
    var next := WriteLenEncString(data, 0, s);
    assert data[..next] == data[..];
    return data[..];
  }

  /** Writes a value into a buffer of its own. */
  method BinaryVal2MySQL(t: FieldType, v: Value) returns (out: Option<seq<byte>>)
    requires WellTyped(t, v) && !v.Nil?
    ensures out == Encode(t, v)
  {
    var bytes;
    if Textual(t) {
      bytes := WriteString(v.bytes);
    } else if v.Int? {
      bytes := WriteNumber(v.number % Power(Width(t)), Width(t));
    } else {
      var n := ParseUint(v.bytes);
      if n.None? { return None; }
      Powers();
      bytes := WriteNumber(n.value, 8);
    }
    return Some(bytes);
  }

  // ----- decoding -----

  predicate Signed(t: FieldType) {
    t.Tiny? || t.Short? || t.Year? || t.Int24? || t.Long? || t.LongLong?
  }

  /** The residue modulo `p` nearest to zero. */
  function Wrapped(n: nat, p: nat): int {
    if 2 * n >= p then n - p else n
  }

  /** Cutting a number to a signed width keeps it exactly when it is in range. */
  lemma {:induction false} WrappedBack(n: int, p: nat)
    requires p > 0
    ensures Wrapped(n % p, p) == n <==> -1 * p <= 2 * n < p
    ensures n % p == n <==> 0 <= n < p
  {
    var q, m := n / p, n % p;
    assert n == q * p + m;
    if q >= 1 {
      assert q * p >= p;
    } else if q <= -2 {
      assert q * p <= -2 * p;
    }
  }

  /** The value a number on the wire stands for; one beyond the signed range becomes a numeral. */
  function FromWire(t: FieldType, n: nat): Value {
    if Signed(t) then Int(Wrapped(n, Power(Width(t))))
    else if t.Uint64? && n >= INT_LIMIT then Raw(Ascii(Dec.Natural(n)))
    else Int(n)
  }

  datatype Piece = Piece(value: Value, n: nat) | Missing

  /** Whether this model covers values of the type. */
  predicate Covered(t: FieldType) {
    Width(t) > 0 || Textual(t) || t.NULL?
  }

  /** The value at the front of a slice. */
  function DecodeValue(t: FieldType, b: seq<byte>): (p: Piece)
    requires Covered(t)
    ensures p.Piece? ==> p.n <= |b|
  {
    if t.NULL? then Piece(Nil, 0)
    else if Textual(t) then
      var s := ReadLengthEncodedString(b);
      if s.Text? then Piece(if s.isNull then Nil else Raw(s.value), s.n) else Missing
    else if |b| < Width(t) then Missing
    else Piece(FromWire(t, Number(b[..Width(t)])), Width(t))
  }

  // ----- round trip -----

  /** What comes back for a value. */
  function Canonical(t: FieldType, v: Value): Value
    requires WellTyped(t, v) && (v.Nil? || Encode(t, v).Some?)
  {
    if v.Nil? || Textual(t) then v
    else if v.Int? then FromWire(t, v.number % Power(Width(t)))
    else FromWire(t, ParseUint(v.bytes).value)
  }

  lemma {:induction false} NumberRead(n: nat, w: nat, tail: seq<byte>)
    requires n < Power(w)
    ensures Number((LittleEndian(n, w) + tail)[..w]) == n
  {
    assert (LittleEndian(n, w) + tail)[..w] == LittleEndian(n, w);
    NumberOfBytes(n, w);
  }

  lemma {:induction false} ValueRead(t: FieldType, v: Value, tail: seq<byte>)
    requires WellTyped(t, v) && !v.Nil? && Encode(t, v).Some?
    ensures DecodeValue(t, Encode(t, v).value + tail) == Piece(Canonical(t, v), |Encode(t, v).value|)
  {
    if Textual(t) {
      StringRead(v.bytes, tail);
    } else if v.Int? {
      IntegerRead(t, v.number % Power(Width(t)), tail);
    } else {
      Powers();
      IntegerRead(t, ParseUint(v.bytes).value, tail);
    }
  }

  lemma {:induction false} IntegerRead(t: FieldType, n: nat, tail: seq<byte>)
    requires Width(t) > 0 && n < Power(Width(t))
    ensures DecodeValue(t, LittleEndian(n, Width(t)) + tail) == Piece(FromWire(t, n), Width(t))
  {
    Widths(t);
    NumberRead(n, Width(t), tail);
  }

  /** The numbers that come back unchanged, by type; the largest unsigned ones come back as numerals. */
  predicate Holds(t: FieldType, n: int) {
    match t
    case Tiny => -128 <= n <= 127
    case Uint8 => 0 <= n <= 255
    case Short => -32768 <= n <= 32767
    case Year => -32768 <= n <= 32767
    case Uint16 => 0 <= n <= 65535
    case Int24 => -2147483648 <= n <= 2147483647
    case Long => -2147483648 <= n <= 2147483647
    case Uint24 => 0 <= n <= 4294967295
    case Uint32 => 0 <= n <= 4294967295
    case LongLong => -9223372036854775808 <= n <= 9223372036854775807
    case Uint64 => 0 <= n <= 9223372036854775807
    case _ => false
  }

  /** Values that come back unchanged: what the type can hold, and large unsigned numbers as their numerals. */
  predicate InRange(t: FieldType, v: Value)
    requires WellTyped(t, v)
  {
    if v.Nil? || Textual(t) then true
    else if v.Raw? then
      var n := ParseUint(v.bytes);
      n.Some? && n.value >= 9223372036854775808 && v.bytes == Ascii(Dec.Natural(n.value))
    else Holds(t, v.number)
  }

  lemma {:induction false} CanonicalIffInRange(t: FieldType, v: Value)
    requires WellTyped(t, v) && (v.Nil? || Encode(t, v).Some?)
    ensures Canonical(t, v) == v <==> InRange(t, v)
  {
    if !v.Nil? && !Textual(t) && v.Int? {
      WrappedBack(v.number, Power(Width(t)));
      Powers();
    }
  }

  /** The bytes of a number in two's complement, the lowest first. */
  ghost predicate IsEncoded(n: int, b: seq<byte>) {
    if |b| == 1 then b == [n % 256]
    else if |b| == 2 then var m := n % 65536; b == [m % 256, m / 256 % 256]
    else if |b| == 4 then var m := n % 4294967296; b == [m % 256, m / 256 % 256, m / 65536 % 256, m / 16777216 % 256]
    else |b| == 8 && Number(b) == n % 18446744073709551616
  }

  /** How many bytes a number takes, by type. */
  function Octets(t: FieldType): nat {
    match t
    case Tiny => 1
    case Uint8 => 1
    case Short => 2
    case Year => 2
    case Uint16 => 2
    case Int24 => 4
    case Long => 4
    case Uint24 => 4
    case Uint32 => 4
    case LongLong => 8
    case Uint64 => 8
    case _ => 0
  }

  lemma {:induction false} EncodedNumber(n: int, w: nat)
    requires w == 1 || w == 2 || w == 4 || w == 8
    ensures IsEncoded(n, LittleEndian(n % Power(w), w))
  {
    Powers();
    Layout(n % Power(w));
    NumberOfBytes(n % Power(w), w);
  }

  lemma {:induction false} Widths(t: FieldType)
    requires Width(t) > 0
    ensures Width(t) == Octets(t) && !Textual(t)
    ensures Width(t) == 1 || Width(t) == 2 || Width(t) == 4 || Width(t) == 8
  {
  }

  lemma {:induction false} NumberBytes(t: FieldType, n: int)
    requires WellTyped(t, Int(n))
    ensures Encode(t, Int(n)).Some? && |Encode(t, Int(n)).value| == Octets(t) && IsEncoded(n, Encode(t, Int(n)).value)
  {
    Widths(t);
    EncodedNumber(n, Width(t));
    assert Encode(t, Int(n)) == Some(LittleEndian(n % Power(Width(t)), Width(t)));
  }

  lemma {:induction false} WrappedRange(n: nat, p: nat)
    requires n < p && p % 2 == 0
    ensures -1 * p <= 2 * Wrapped(n, p) < p && Wrapped(n, p) % p == n
  {
    ModUnique(if 2 * n >= p then -1 else 0, p, n);
  }

  lemma {:induction false} WireHolds(t: FieldType, n: nat)
    requires Width(t) > 0 && n < Power(Width(t))
    ensures FromWire(t, n).Int? ==> Holds(t, FromWire(t, n).number) && FromWire(t, n).number % Power(Width(t)) == n
    ensures !FromWire(t, n).Int? ==> t.Uint64? && n >= 9223372036854775808 && FromWire(t, n) == Raw(Ascii(Dec.Natural(n)))
  {
    Powers();
    WrappedRange(n, Power(Width(t)));
    ModUnique(0, Power(Width(t)), n);
  }

  /** An integer column is decoded to the number of its range whose bytes these are, or, beyond it, to its numeral. */
  lemma {:induction false} NumberDecoded(t: FieldType, b: seq<byte>)
    requires Octets(t) > 0
    ensures DecodeValue(t, b).Missing? <==> |b| < Octets(t)
    ensures |b| >= Octets(t) ==>
              var p, bytes := DecodeValue(t, b), b[..Octets(t)];
              && p.n == Octets(t)
              && if p.value.Int? then Holds(t, p.value.number) && IsEncoded(p.value.number, bytes)
                 else t.Uint64? && Number(bytes) >= 9223372036854775808 && p.value == Raw(Ascii(Dec.Natural(Number(bytes))))
  {
    var w := Width(t);
    Widths(t);
    if |b| >= w {
      var n := Number(b[..w]);
      BytesOfNumber(b[..w]);
      WireHolds(t, n);
      var v := FromWire(t, n);
      if v.Int? { EncodedNumber(v.number, w); }
    }
  }

  /** A value cannot be encoded exactly when it is text for an unsigned 64-bit column and no numeral of such a number. */
  lemma {:induction false} EncodeFails(t: FieldType, v: Value)
    requires WellTyped(t, v) && !v.Nil?
    ensures Encode(t, v).None? <==>
            t.Uint64? && v.Raw? && !(Numeral(Chars(v.bytes)) && Dec.Parse(Chars(v.bytes)) <= 18446744073709551615)
  {
  }

  /** NULL is a column of its own type, of which nothing is read, or the byte 251 in front of a string column. */
  lemma {:induction false} NullDecoded(t: FieldType, b: seq<byte>)
    requires Textual(t) || t.NULL?
    ensures t.NULL? ==> DecodeValue(t, b) == Piece(Nil, 0)
    ensures Textual(t) ==> (DecodeValue(t, b) == Piece(Nil, 1) <==> b != [] && b[0] == 251)
    ensures Textual(t) && DecodeValue(t, b).Piece? ==> (DecodeValue(t, b).value.Nil? <==> b[0] == 251)
  {
  }
}
