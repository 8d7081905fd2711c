/** Bytes, little-endian numbers, and what stands where in a buffer. */
module Bytes {

  type byte = x: int | 0 <= x < 256

  function Power(k: nat): (p: nat)
    ensures p > 0
  {
    if k == 0 then 1 else 256 * Power(k - 1)
  }

  function LittleEndian(n: nat, k: nat): (s: seq<byte>)
    ensures |s| == k
  {
    if k == 0 then [] else [n % 256] + LittleEndian(n / 256, k - 1)
  }

  function Number(s: seq<byte>): nat {
    if s == [] then 0 else s[0] + 256 * Number(s[1..])
  }

  lemma {:induction false} Powers()
    ensures Power(1) == 0x100 && Power(2) == 0x1_0000 && Power(3) == 0x100_0000 && Power(4) == 0x1_0000_0000
    ensures Power(8) == 0x1_0000_0000_0000_0000
  {
    assert Power(3) == 256 * Power(2);
    assert Power(5) == 256 * Power(4);
    assert Power(7) == 256 * 256 * Power(5);
  }

  /** The bytes of a number, the lowest first. */
  lemma {:induction false} Layout(n: nat)
    ensures LittleEndian(n, 1) == [n % 256]
    ensures LittleEndian(n, 2) == [n % 256, n / 256 % 256]
    ensures LittleEndian(n, 3) == [n % 256, n / 256 % 256, n / 65536 % 256]
    ensures LittleEndian(n, 4) == [n % 256, n / 256 % 256, n / 65536 % 256, n / 16777216 % 256]
  {
    var a, b, c := n / 256, n / 65536, n / 16777216;
    assert a / 256 == b && b / 256 == c;
    assert forall m: nat :: LittleEndian(m, 1) == [m % 256] + LittleEndian(m / 256, 0);
    assert LittleEndian(b, 2) == [b % 256] + LittleEndian(c, 1);
    assert LittleEndian(a, 2) == [a % 256] + LittleEndian(b, 1);
    assert LittleEndian(a, 3) == [a % 256] + LittleEndian(b, 2);
    assert LittleEndian(n, 2) == [n % 256] + LittleEndian(a, 1);
    assert LittleEndian(n, 3) == [n % 256] + LittleEndian(a, 2);
    assert LittleEndian(n, 4) == [n % 256] + LittleEndian(a, 3);
  }

  lemma {:induction false} NumberOfBytes(n: nat, k: nat)
    requires n < Power(k)
    ensures Number(LittleEndian(n, k)) == n
  {
    if k > 0 {
      NumberOfBytes(n / 256, k - 1);
      assert LittleEndian(n, k)[1..] == LittleEndian(n / 256, k - 1);
    }
  }

  lemma {:induction false} BytesOfNumber(s: seq<byte>)
    ensures Number(s) < Power(|s|)
    ensures LittleEndian(Number(s), |s|) == s
  {
    if s != [] {
      BytesOfNumber(s[1..]);
      assert Number(s) / 256 == Number(s[1..]) && Number(s) % 256 == s[0];
      assert s == [s[0]] + s[1..];
    }
  }

  /** `n` shifted right by `j` bytes. */
  function Shifted(n: nat, j: nat): nat {
    if j == 0 then n else Shifted(n / 256, j - 1)
  }

  /** The byte left over after shifting right by `j` bytes. */
  function ByteAt(n: nat, j: nat): byte {
    Shifted(n, j) % 256
  }

  lemma {:induction false} ByteOfNumber(n: nat, k: nat, j: nat)
    requires j < k
    ensures LittleEndian(n, k)[j] == ByteAt(n, j)
  {
    if j > 0 {
      ByteOfNumber(n / 256, k - 1, j - 1);
    }
  }

  // ----- contents of a buffer -----

  /** `s` stands at `pos`. */
  predicate At(a: seq<byte>, pos: nat, s: seq<byte>) {
    pos + |s| <= |a| && a[pos..pos + |s|] == s
  }

  lemma {:induction false} AtBoth(a: seq<byte>, pos: nat, s: seq<byte>, t: seq<byte>)
    ensures At(a, pos, s + t) <==> At(a, pos, s) && At(a, pos + |s|, t)
  {
    if pos + |s| + |t| <= |a| {
      assert a[pos..pos + |s + t|] == a[pos..pos + |s|] + a[pos + |s|..pos + |s| + |t|];
      if a[pos..pos + |s + t|] == s + t {
        assert (s + t)[..|s|] == s && (s + t)[|s|..] == t;
        assert a[pos..pos + |s + t|][..|s|] == a[pos..pos + |s|];
        assert a[pos..pos + |s + t|][|s|..] == a[pos + |s|..pos + |s| + |t|];
      }
    }
  }
}
