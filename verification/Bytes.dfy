/**
 Bytes, machine integers and the little- and big-endian encodings that the
 image format and the flash contents use.
 */
module Bytes {

  datatype Option<+T> = None | Some(value: T)

  type byte = b: int | 0 <= b < 0x100
  type u16 = n: int | 0 <= n < 0x1_0000
  type u32 = n: int | 0 <= n < 0x1_0000_0000

  /** The value an unsigned 32-bit addition stores. */
  function Wrap32(n: int): (r: u32)
    ensures 0 <= n < 0x1_0000_0000 ==> r == n
    ensures (n - r) % 0x1_0000_0000 == 0
  {
    if 0 <= n < 0x1_0000_0000 then n else n % 0x1_0000_0000
  }

  function Min(a: nat, b: nat): nat {
    if a <= b then a else b
  }

  function Max(a: nat, b: nat): nat {
    if a <= b then b else a
  }

  function Le16(s: seq<byte>, at: nat): u16
    requires at + 2 <= |s|
  {
    s[at] as int + 0x100 * (s[at + 1] as int)
  }

  function Le32(s: seq<byte>, at: nat): u32
    requires at + 4 <= |s|
  {
    Le16(s, at) as int + 0x1_0000 * (Le16(s, at + 2) as int)
  }

  lemma Le32Slice(s: seq<byte>, t: seq<byte>, at: nat)
    requires at + 4 <= |s| && at + 4 <= |t| && s[at..at + 4] == t[at..at + 4]
    ensures Le32(s, at) == Le32(t, at)
  {
    var a, b := s[at..at + 4], t[at..at + 4];
    assert s[at] == a[0] && s[at + 1] == a[1] && s[at + 2] == a[2] && s[at + 3] == a[3];
    assert t[at] == b[0] && t[at + 1] == b[1] && t[at + 2] == b[2] && t[at + 3] == b[3];
  }

  function Be32(s: seq<byte>): u32
    requires |s| == 4
  {
    s[3] as int + 0x100 * (s[2] as int) + 0x1_0000 * (s[1] as int) + 0x100_0000 * (s[0] as int)
  }

  function EncodeLe16(n: u16): (s: seq<byte>)
    ensures |s| == 2
  {
    [n % 0x100, n / 0x100]
  }

  function EncodeLe32(n: u32): (s: seq<byte>)
    ensures |s| == 4
  {
    [n % 0x100, n / 0x100 % 0x100, n / 0x1_0000 % 0x100, n / 0x100_0000]
  }

  lemma Le16RoundTrip(n: u16)
    ensures Le16(EncodeLe16(n), 0) == n
  {
    assert n == 0x100 * (n / 0x100) + n % 0x100;
  }

  lemma Le32RoundTrip(n: u32)
    ensures Le32(EncodeLe32(n), 0) == n
  {
    var high := n / 0x1_0000;
    assert n == 0x1_0000 * high + n % 0x1_0000;
    assert n % 0x1_0000 == 0x100 * (n / 0x100 % 0x100) + n % 0x100;
    assert high == 0x100 * (n / 0x100_0000) + high % 0x100;
  }

  /** A number that stands encoded at some place is read from there. */
  lemma Le32Stored(s: seq<byte>, at: nat, n: u32)
    requires at + 4 <= |s| && s[at..at + 4] == EncodeLe32(n)
    ensures Le32(s, at) == n
  {
    Le32RoundTrip(n);
    var e := EncodeLe32(n);
    assert s[at] == e[0] && s[at + 1] == e[1] && s[at + 2] == e[2] && s[at + 3] == e[3];
  }

  lemma Le16Stored(s: seq<byte>, at: nat, n: u16)
    requires at + 2 <= |s| && s[at..at + 2] == EncodeLe16(n)
    ensures Le16(s, at) == n
  {
    Le16RoundTrip(n);
    var e := EncodeLe16(n);
    assert s[at] == e[0] && s[at + 1] == e[1];
  }

  function EncodeBe32(n: u32): seq<byte> {
    var high, low := n / 0x1_0000, n % 0x1_0000;
    [high / 0x100, high % 0x100, low / 0x100, low % 0x100]
  }

  lemma Be32RoundTrip(n: u32)
    ensures Be32(EncodeBe32(n)) == n
  {
    var high, low := n / 0x1_0000, n % 0x1_0000;
    assert high == 0x100 * (high / 0x100) + high % 0x100;
    assert low == 0x100 * (low / 0x100) + low % 0x100;
  }

  function Repeat(b: byte, n: nat): seq<byte> {
    seq(n, _ => b)
  }

  /** n erased flash cells. */
  function Ones(n: nat): seq<byte> {
    Repeat(0xFF, n)
  }

  /** How many of the n bytes at pos a file holding data can deliver. */
  function Available(data: seq<byte>, pos: nat, n: nat): nat {
    if |data| <= pos then 0 else Min(n, |data| - pos)
  }

  /** A buffer after a read of n bytes at pos; what the file lacks stays as it was. */
  function Overlay(buf: seq<byte>, data: seq<byte>, pos: nat, n: nat): (r: seq<byte>)
    requires n <= |buf|
    ensures |r| == |buf|
    ensures pos + n <= |data| ==> r == data[pos..pos + n] + buf[n..]
  {
    var k := Available(data, pos, n);
    if k == 0 then buf else data[pos..pos + k] + buf[k..]
  }

  /** The C string at the start of a buffer. */
  function CString(s: seq<byte>): seq<byte> {
    if s == [] || s[0] == 0 then [] else [s[0]] + CString(s[1..])
  }

  /** It ends before the first zero, or with the buffer. */
  lemma {:induction false} CStringIff(s: seq<byte>, c: seq<byte>)
    ensures CString(s) == c <==> c <= s && 0 !in c && (|c| < |s| ==> s[|c|] == 0)
  {
    if s == [] || s[0] == 0 {
      if s != [] && c != [] && c <= s {
        assert c[0] == s[0] == 0;
      }
    } else if c != [] {
      CStringIff(s[1..], c[1..]);
      assert c == [c[0]] + c[1..] && s == [s[0]] + s[1..];
      assert c <= s ==> c[1..] <= s[1..];
    }
  }

  // ---------- bitwise operators on unbounded naturals ----------

  function BitAnd(a: nat, b: nat): (r: nat)
    ensures r <= a && r <= b
  {
    if a == 0 then 0 else (if a % 2 == 1 && b % 2 == 1 then 1 else 0) + 2 * BitAnd(a / 2, b / 2)
  }

  function BitOr(a: nat, b: nat): nat {
    if a == 0 then b
    else (if a % 2 == 1 || b % 2 == 1 then 1 else 0) + 2 * BitOr(a / 2, b / 2)
  }

  function Pow2(k: nat): (p: nat)
    ensures p > 0
  {
    if k == 0 then 1 else 2 * Pow2(k - 1)
  }

  function Bit(n: nat, k: nat): nat {
    n / Pow2(k) % 2
  }

  lemma {:induction false} MulStep(d: nat, a: nat, b: nat)
    requires a < b
    ensures d * a + d <= d * b
    decreases b
  {
    assert d * b == d * (b - 1) + d;
    if a < b - 1 {
      MulStep(d, a, b - 1);
    }
  }

  lemma DivUnique(n: nat, d: nat, q: nat, r: nat)
    requires r < d && n == d * q + r
    ensures n / d == q
  {
    if n / d < q {
      MulStep(d, n / d, q);
      assert false;
    } else if q < n / d {
      MulStep(d, q, n / d);
      assert false;
    }
  }

  lemma HalfThenDiv(n: nat, p: nat)
    requires p > 0
    ensures n / (2 * p) == n / 2 / p
  {
    var q, r := n / 2 / p, n / 2 % p;
    assert n / 2 == p * q + r;
    assert 2 * (p * q) == 2 * p * q;
    DivUnique(n, 2 * p, q, 2 * r + n % 2);
  }

  lemma BitOfHalf(n: nat, k: nat)
    requires k > 0
    ensures Bit(n, k) == Bit(n / 2, k - 1)
  {
    HalfThenDiv(n, Pow2(k - 1));
  }

  lemma LowBit(n: nat)
    ensures Bit(n, 0) == n % 2
  {
  }

  /** AND of the low bits and of the halves. */
  lemma AndHalves(a: nat, b: nat)
    ensures BitAnd(a, b) % 2 == 1 <==> a % 2 == 1 && b % 2 == 1
    ensures BitAnd(a, b) / 2 == BitAnd(a / 2, b / 2)
  {
    if a == 0 {
      assert BitAnd(0, b / 2) == 0;
    } else {
      var rest := BitAnd(a / 2, b / 2);
      assert BitAnd(a, b) == 2 * rest || BitAnd(a, b) == 2 * rest + 1;
    }
  }

  /** AND bit by bit. */
  lemma {:induction false} AndBit(a: nat, b: nat, k: nat)
    ensures Bit(BitAnd(a, b), k) == 1 <==> Bit(a, k) == 1 && Bit(b, k) == 1
    decreases k
  {
    hide Bit, BitAnd, Pow2;
    AndHalves(a, b);
    if k == 0 {
      LowBit(a);
      LowBit(b);
      LowBit(BitAnd(a, b));
    } else {
      BitOfHalf(a, k);
      BitOfHalf(b, k);
      BitOfHalf(BitAnd(a, b), k);
      AndBit(a / 2, b / 2, k - 1);
    }
  }

  /** All ones is the unit of AND: programming an erased cell stores the new byte. */
  lemma {:induction false} AndOnes(k: nat, b: nat)
    requires b < Pow2(k)
    ensures BitAnd(Pow2(k) - 1, b) == b
  {
    if k > 0 {
      var p := Pow2(k - 1);
      AndOnes(k - 1, b / 2);
      assert (2 * p - 1) % 2 == 1 && (2 * p - 1) / 2 == p - 1;
    }
  }

  lemma {:induction false} OrZero(a: nat)
    ensures BitOr(a, 0) == a
  {
    if a > 0 {
      OrZero(a / 2);
    }
  }

  /** OR is addition when the bits do not overlap. */
  lemma {:induction false} OrDisjoint(k: nat, high: nat, low: nat)
    requires low < Pow2(k)
    ensures BitOr(high * Pow2(k), low) == high * Pow2(k) + low
  {
    if k == 0 {
      OrZero(high);
    } else if high > 0 {
      var a := high * Pow2(k);
      assert a == 2 * (high * Pow2(k - 1));
      OrDisjoint(k - 1, high, low / 2);
    }
  }

  lemma AndErased(b: byte)
    ensures BitAnd(0xFF, b) == b
  {
    assert Pow2(8) == 0x100 by {
      assert Pow2(4) == 16;
      assert Pow2(6) == 64;
    }
    AndOnes(8, b);
  }
}
