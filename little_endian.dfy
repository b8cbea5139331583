/** Fixed-width unsigned integers and their little-endian byte encoding,
    as used by the packet wire format (the `to_le_bytes` / `from_le_bytes`
    conversions of Rust's `u32` and `u64`). */
module LittleEndian {

  type u8 = x: int | 0 <= x < 0x100
  type u32 = x: int | 0 <= x < 0x1_0000_0000
  type u64 = x: int | 0 <= x < 0x1_0000_0000_0000_0000

  /** 256 to the power n: the number of values n bytes can hold. */
  function Pow256(n: nat): (r: nat)
    ensures r > 0
  {
    if n == 0 then 1 else 256 * Pow256(n - 1)
  }

  /** The value of a byte string read least-significant byte first. */
  function FromLE(s: seq<u8>): (r: nat)
    ensures r < Pow256(|s|)
  {
    if s == [] then 0
    else
      var rest := FromLE(s[1..]);
      assert s[0] + 256 * rest <= 255 + 256 * (Pow256(|s| - 1) - 1);
      s[0] + 256 * rest
  }

  /** The n-byte little-endian encoding of x; FromLE is its inverse. */
  function ToLE(x: nat, n: nat): (r: seq<u8>)
    requires x < Pow256(n)
    ensures |r| == n
    ensures FromLE(r) == x
  {
    if n == 0 then []
    else
      var r := [x % 256] + ToLE(x / 256, n - 1);
      assert r[1..] == ToLE(x / 256, n - 1);
      r
  }

  /** Reading a byte string as a number and writing that number back in
      the same width gives the same bytes: FromLE is injective per width. */
  lemma {:induction false} ToLEFromLE(s: seq<u8>)
    ensures ToLE(FromLE(s), |s|) == s
  {
    if s != [] {
      ToLEFromLE(s[1..]);
      var x := FromLE(s);
      assert x % 256 == s[0] && x / 256 == FromLE(s[1..]);
    }
  }

  /** Byte k of the encoding is digit k of x in base 256: the least
      significant byte comes first. */
  lemma {:induction false} ToLEDigit(x: nat, n: nat, k: nat)
    requires x < Pow256(n)
    requires k < n
    ensures ToLE(x, n)[k] == (x / Pow256(k)) % 256
  {
    if k > 0 {
      ToLEDigit(x / 256, n - 1, k - 1);
      DivDiv(x, 256, Pow256(k - 1));
    }
  }

  lemma DivDiv(x: nat, a: nat, b: nat)
    requires a > 0 && b > 0
    ensures x / a / b == x / (a * b)
  {
    var y, r1 := x / a, x % a;
    var q, r2 := y / b, y % b;
    var r := a * r2 + r1;
    assert x == (a * b) * q + r by {
      assert x == a * y + r1;
      assert y == b * q + r2;
      MulDistributes(a, b * q, r2);
      assert a * (b * q) == (a * b) * q;
    }
    assert r < a * b by {
      MulMono(a, r2, b - 1);
      MulDistributes(a, b - 1, 1);
    }
    DivUnique(x, a * b, q, r);
  }

  lemma MulDistributes(a: int, b: int, c: int)
    ensures a * (b + c) == a * b + a * c
  {
  }

  lemma MulMono(a: nat, b: nat, c: nat)
    requires b <= c
    ensures a * b <= a * c
  {
  }

  lemma DivUnique(x: nat, d: nat, q: nat, r: nat)
    requires d > 0 && r < d
    requires x == d * q + r
    ensures x / d == q && x % d == r
  {
    var q', r' := x / d, x % d;
    assert x == d * q' + r';
    if q' < q {
      assert d * q - d * q' == d * (q - q');
      MulMono(d, 1, q - q');
    } else if q' > q {
      assert d * q' - d * q == d * (q' - q);
      MulMono(d, 1, q' - q);
    }
  }

  /** Little-endian encoding of a 32-bit value (`u32::to_le_bytes`). */
  function LE32(x: u32): (r: seq<u8>)
    ensures |r| == 4 && FromLE(r) == x
  {
    ToLE(x, 4)
  }

  /** Little-endian encoding of a 64-bit value (`u64::to_le_bytes`). */
  function LE64(x: u64): (r: seq<u8>)
    ensures |r| == 8 && FromLE(r) == x
  {
    ToLE(x, 8)
  }

  /** Decoding of four little-endian bytes (`u32::from_le_bytes`). */
  function FromLE32(s: seq<u8>): (r: u32)
    requires |s| == 4
    ensures LE32(r) == s
  {
    ToLEFromLE(s);
    FromLE(s)
  }

  /** Decoding of eight little-endian bytes (`u64::from_le_bytes`). */
  function FromLE64(s: seq<u8>): (r: u64)
    requires |s| == 8
    ensures LE64(r) == s
  {
    ToLEFromLE(s);
    FromLE(s)
  }
}
