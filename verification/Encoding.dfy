/** Length-encoded integers and strings: writing into buffers and reading back. */
module Encoding {
  import opened Lists
  import opened Bytes

  const LIMIT := 0x1_0000_0000_0000_0000
  const INT_LIMIT := 0x8000_0000_0000_0000

  /** Protocol::LengthEncodedInteger. */
  function LenEnc(n: nat): (s: seq<byte>)
    requires n < LIMIT
    ensures 1 <= |s| <= 9
  {
    if n < 251 then [n]
    else if n < 0x1_0000 then [0xfc] + LittleEndian(n, 2)
    else if n < 0x100_0000 then [0xfd] + LittleEndian(n, 3)
    else [0xfe] + LittleEndian(n, 8)
  }

  /** The bytes of a length-encoded integer. */
  lemma {:induction false} LenEncBytes(n: nat)
    requires n < LIMIT
    ensures n <= 250 ==> LenEnc(n) == [n]
    ensures 251 <= n <= 65535 ==> LenEnc(n) == [252, n % 256, n / 256]
    ensures 65536 <= n <= 16777215 ==> LenEnc(n) == [253, n % 256, n / 256 % 256, n / 65536]
    ensures 16777216 <= n ==> |LenEnc(n)| == 9 && LenEnc(n)[0] == 254 && Number(LenEnc(n)[1..]) == n
  {
    Layout(n);
    Powers();
    if n >= 16777216 {
      NumberOfBytes(n, 8);
      assert LenEnc(n)[1..] == LittleEndian(n, 8);
    }
  }

  /** Protocol::LengthEncodedString. */
  function LenEncString(s: seq<byte>): seq<byte>
    requires |s| < LIMIT
  {
    LenEnc(|s|) + s
  }

  function LenEncIntSize(n: nat): (size: nat)
    requires n < LIMIT
    ensures size == |LenEnc(n)|
  {
    if n < 251 then 1 else if n < 0x1_0000 then 3 else if n < 0x100_0000 then 4 else 9
  }

  function LenEncStringSize(s: seq<byte>): (size: nat)
    requires |s| < LIMIT
    ensures size == |LenEncString(s)|
  {
    LenEncIntSize(|s|) + |s|
  }

  // ----- writing in place; the caller provides the room -----

  method WriteByte(data: array<byte>, pos: nat, value: byte) returns (next: nat)
    requires pos + 1 <= data.Length
    modifies data
    ensures next == pos + 1 && data[..next] == old(data[..pos]) + [value]
    ensures forall k | next <= k < data.Length :: data[k] == old(data[k])
  {
    data[pos] := value;
    return pos + 1;
  }

  method WriteUint16(data: array<byte>, pos: nat, value: nat) returns (next: nat)
    requires pos + 2 <= data.Length && value < 0x1_0000
    modifies data
    ensures next == pos + 2 && data[..next] == old(data[..pos]) + LittleEndian(value, 2)
    ensures forall k | next <= k < data.Length :: data[k] == old(data[k])
  {
    data[pos] := ByteAt(value, 0);
    data[pos + 1] := ByteAt(value, 1);
    Written(old(data[..pos]), data[..pos + 2], value, 2);
    return pos + 2;
  }

  method WriteUint24(data: array<byte>, pos: nat, value: nat) returns (next: nat)
    requires pos + 3 <= data.Length && value < 0x100_0000
    modifies data
    ensures next == pos + 3 && data[..next] == old(data[..pos]) + LittleEndian(value, 3)
    ensures forall k | next <= k < data.Length :: data[k] == old(data[k])
  {
    data[pos] := ByteAt(value, 0);
    data[pos + 1] := ByteAt(value, 1);
    data[pos + 2] := ByteAt(value, 2);
    Written(old(data[..pos]), data[..pos + 3], value, 3);
    return pos + 3;
  }

  method WriteUint32(data: array<byte>, pos: nat, value: nat) returns (next: nat)
    requires pos + 4 <= data.Length && value < 0x1_0000_0000
    modifies data
    ensures next == pos + 4 && data[..next] == old(data[..pos]) + LittleEndian(value, 4)
    ensures forall k | next <= k < data.Length :: data[k] == old(data[k])
  {
    data[pos] := ByteAt(value, 0);
    data[pos + 1] := ByteAt(value, 1);
    data[pos + 2] := ByteAt(value, 2);
    data[pos + 3] := ByteAt(value, 3);
    Written(old(data[..pos]), data[..pos + 4], value, 4);
    return pos + 4;
  }

  method WriteUint64(data: array<byte>, pos: nat, value: nat) returns (next: nat)
    requires pos + 8 <= data.Length && value < LIMIT
    modifies data
    ensures next == pos + 8 && data[..next] == old(data[..pos]) + LittleEndian(value, 8)
    ensures forall k | next <= k < data.Length :: data[k] == old(data[k])
  {
    data[pos] := ByteAt(value, 0);
    data[pos + 1] := ByteAt(value, 1);
    data[pos + 2] := ByteAt(value, 2);
    data[pos + 3] := ByteAt(value, 3);
    data[pos + 4] := ByteAt(value, 4);
    data[pos + 5] := ByteAt(value, 5);
    data[pos + 6] := ByteAt(value, 6);
    data[pos + 7] := ByteAt(value, 7);
    Written(old(data[..pos]), data[..pos + 8], value, 8);
    return pos + 8;
  }

  /** Writing a number byte by byte writes its little-endian form. */
  lemma {:induction false} Written(before: seq<byte>, after: seq<byte>, n: nat, k: nat)
    requires |after| == |before| + k
    requires forall i | 0 <= i < |after| :: after[i] == if i < |before| then before[i] else ByteAt(n, i - |before|)
    ensures after == before + LittleEndian(n, k)
  {
    forall i | |before| <= i < |after| ensures after[i] == LittleEndian(n, k)[i - |before|] {
      ByteOfNumber(n, k, i - |before|);
    }
  }

  method WriteLenEncInt(data: array<byte>, pos: nat, i: nat) returns (next: nat)
    requires i < LIMIT && pos + |LenEnc(i)| <= data.Length
    modifies data
    ensures next == pos + |LenEnc(i)| && data[..next] == old(data[..pos]) + LenEnc(i)
    ensures forall k | next <= k < data.Length :: data[k] == old(data[k])
  {
    if i < 251 {
      data[pos] := i;
      return pos + 1;
    } else if i < 0x1_0000 {
      next := WriteByte(data, pos, 0xfc);
      next := WriteUint16(data, next, i);
      Associative(old(data[..pos]), [0xfc], LittleEndian(i, 2));
    } else if i < 0x100_0000 {
      next := WriteByte(data, pos, 0xfd);
      next := WriteUint24(data, next, i);
      Associative(old(data[..pos]), [0xfd], LittleEndian(i, 3));
    } else {
      next := WriteByte(data, pos, 0xfe);
      next := WriteUint64(data, next, i);
      Associative(old(data[..pos]), [0xfe], LittleEndian(i, 8));
    }
  }

  /** Copies a string; the buffer has room for all of it. */
  method WriteEOFString(data: array<byte>, pos: nat, value: seq<byte>) returns (next: nat)
    requires pos + |value| <= data.Length
    modifies data
    ensures next == pos + |value| && data[..next] == old(data[..pos]) + value
    ensures forall k | next <= k < data.Length :: data[k] == old(data[k])
  {
    var i := 0;
    while i < |value|
      invariant 0 <= i <= |value|
      invariant forall k | 0 <= k < data.Length :: data[k] == if pos <= k < pos + i then value[k - pos] else old(data[k])
    {
      data[pos + i] := value[i];
      i := i + 1;
    }
    return pos + |value|;
  }

  method WriteLenEncString(data: array<byte>, pos: nat, value: seq<byte>) returns (next: nat)
    requires |value| < LIMIT && pos + |LenEncString(value)| <= data.Length
    modifies data
    ensures next == pos + |LenEncString(value)| && data[..next] == old(data[..pos]) + LenEncString(value)
    ensures forall k | next <= k < data.Length :: data[k] == old(data[k])
  {
    next := WriteLenEncInt(data, pos, |value|);
    next := WriteEOFString(data, next, value);
    Associative(old(data[..pos]), LenEnc(|value|), value);
  }

  // ----- reading -----

  /** A value and the position behind it; or too little data; or a run-time panic. */
  datatype Read<+T> = Got(value: T, next: nat) | Cut | Panic {
    predicate IsFailure() { !Got? }

    function PropagateFailure<U>(): Read<U>
      requires IsFailure()
    {
      if Cut? then Read.Cut else Read.Panic
    }

    function Extract(): (T, nat)
      requires !IsFailure()
    {
      (value, next)
    }
  }

  function ReadByte(data: seq<byte>, pos: nat): Read<byte> {
    if pos >= |data| then Cut else Got(data[pos], pos + 1)
  }

  function ReadUint(data: seq<byte>, pos: nat, k: nat): Read<nat> {
    if pos + k > |data| then Cut else Got(Number(data[pos..pos + k]), pos + k)
  }

  function ReadLenEncInt(data: seq<byte>, pos: nat): Read<nat> {
    if pos >= |data| then Cut
    else if data[pos] == 0xfc then ReadUint(data, pos + 1, 2)
    else if data[pos] == 0xfd then ReadUint(data, pos + 1, 3)
    else if data[pos] == 0xfe then ReadUint(data, pos + 1, 8)
    else Got(data[pos], pos + 1)
  }

  /** The length is converted to a signed 64-bit integer, so an end beyond its range is negative. */
  function ReadLenEncString(data: seq<byte>, pos: nat): Read<seq<byte>> {
    var (size, start) :- ReadLenEncInt(data, pos);
    if start + size > INT_LIMIT then Panic
    else if start + size > |data| then Cut
    else Got(data[start..start + size], start + size)
  }

  /** An integer as the signed 64-bit integer with the same bits. */
  function Wrapped(x: int): int {
    var m := x % LIMIT;
    if m >= INT_LIMIT then m - LIMIT else m
  }

  /** Only the position is computed, and it wraps; a negative one crashes whatever is read from there. */
  function SkipLenEncString(data: seq<byte>, pos: nat): Read<()> {
    var (size, start) :- ReadLenEncInt(data, pos);
    if Wrapped(start + size - 1) >= |data| then Cut
    else if Wrapped(start + size) < 0 then Panic
    else Got((), Wrapped(start + size))
  }

  lemma {:induction false} WrapsOnce(x: nat)
    requires x < LIMIT + INT_LIMIT
    ensures Wrapped(x) == if x < INT_LIMIT then x else x - LIMIT
  {
    if x >= LIMIT { assert x == (x - LIMIT) + 1 * LIMIT; }
  }

  /** Skipping ends where reading ends, except that a length close to the limit goes back where reading crashes. */
  lemma {:induction false} SkipAgrees(data: seq<byte>, pos: nat)
    requires |data| < INT_LIMIT
    ensures var r, s, n := ReadLenEncString(data, pos), SkipLenEncString(data, pos), ReadLenEncInt(data, pos);
            && (r.Got? ==> s == Got((), r.next)) && (r.Cut? ==> s.Cut?)
            && (r.Panic? ==> s == if n.next + n.value >= LIMIT then Got((), n.next + n.value - LIMIT) else Panic)
  {
    var n := ReadLenEncInt(data, pos);
    if n.Got? {
      LengthBelow(data, pos);
      WrapsOnce(n.next + n.value);
      WrapsOnce(n.next + n.value - 1);
    }
  }

  lemma {:induction false} LengthBelow(data: seq<byte>, pos: nat)
    requires ReadLenEncInt(data, pos).Got?
    ensures ReadLenEncInt(data, pos).value < LIMIT && 0 < ReadLenEncInt(data, pos).next <= |data|
  {
    Powers();
    var k := if data[pos] == 0xfc then 2 else if data[pos] == 0xfd then 3 else 8;
    if pos + 1 + k <= |data| { BytesOfNumber(data[pos + 1..pos + 1 + k]); }
  }

  lemma {:induction false} ReadUintBack(data: seq<byte>, pos: nat, n: nat, k: nat)
    requires n < Power(k) && At(data, pos, LittleEndian(n, k))
    ensures ReadUint(data, pos, k) == Got(n, pos + k)
  {
    NumberOfBytes(n, k);
  }

  lemma {:induction false} ReadByteBack(data: seq<byte>, pos: nat, b: byte)
    requires At(data, pos, [b])
    ensures ReadByte(data, pos) == Got(b, pos + 1)
  {
    assert data[pos..pos + 1][0] == b;
  }

  /** Reading a length-encoded integer returns it and the position behind it. */
  lemma {:induction false} ReadLenEncIntBack(data: seq<byte>, pos: nat, n: nat)
    requires n < LIMIT && At(data, pos, LenEnc(n))
    ensures ReadLenEncInt(data, pos) == Got(n, pos + |LenEnc(n)|)
  {
    var k := |LenEnc(n)| - 1;
    assert LenEnc(n) == LenEnc(n)[..1] + LenEnc(n)[1..];
    AtBoth(data, pos, LenEnc(n)[..1], LenEnc(n)[1..]);
    ReadByteBack(data, pos, LenEnc(n)[0]);
    Powers();
    if k > 0 {
      assert LenEnc(n)[1..] == LittleEndian(n, k);
      ReadUintBack(data, pos + 1, n, k);
    }
  }

  lemma {:induction false} LengthAt(data: seq<byte>, pos: nat, n: nat, rest: seq<byte>)
    requires n < LIMIT && At(data, pos, LenEnc(n) + rest)
    ensures ReadLenEncInt(data, pos) == Got(n, pos + |LenEnc(n)|)
  {
    AtBoth(data, pos, LenEnc(n), rest);
    ReadLenEncIntBack(data, pos, n);
  }

  lemma {:induction false} StringAt(data: seq<byte>, pos: nat, length: seq<byte>, s: seq<byte>)
    requires ReadLenEncInt(data, pos) == Got(|s|, pos + |length|) && At(data, pos, length + s) && |data| <= INT_LIMIT
    ensures ReadLenEncString(data, pos) == Got(s, pos + |length + s|)
  {
    AtBoth(data, pos, length, s);
  }

  /** Reading a length-encoded string returns it and the position behind it. */
  lemma {:induction false} ReadLenEncStringBack(data: seq<byte>, pos: nat, s: seq<byte>)
    requires |s| < LIMIT && At(data, pos, LenEncString(s)) && |data| <= INT_LIMIT
    ensures ReadLenEncString(data, pos) == Got(s, pos + |LenEncString(s)|)
  {
    LengthAt(data, pos, |s|, s);
    StringAt(data, pos, LenEnc(|s|), s);
  }
}
