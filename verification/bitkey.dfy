/** Conversion of fixed-width addresses into the most-significant-bit-first bit
    strings that key the prefix trie.

    An IPv4 address reaches the trie as a Java `long` whose bits 31..0 are read
    with `(ip >> i) & 1`; an IPv6 address as a 16-byte array whose bits are read
    with `getBit`. Both are stated here over unbounded integers, and both are
    shown to agree with the plain big-endian reading of the address.
 */
module BitKey {

  /** An octet as an unsigned value; Java's signed `byte` is only ever used
      through its bit pattern. */
  type Byte = b: int | 0 <= b < 256

  function Pow2(n: nat): (r: nat)
    ensures r >= 1
  {
    if n == 0 then 1 else 2 * Pow2(n - 1)
  }

  /** Bit i of v counted from the least significant end, i.e. `((v >> i) & 1) == 1`.
      Java's `>>` on a long is floor division by 2^i and `& 1` keeps the
      non-negative remainder, which is exactly what Dafny's `/` and `%` do for a
      positive divisor, so this holds for negative longs as well. */
  predicate TestBit(v: int, i: nat) {
    (v / Pow2(i)) % 2 == 1
  }

  /** The n low-order bits of v, most significant first. */
  function ToBits(v: int, n: nat): (r: seq<bool>)
    ensures |r| == n
    decreases n
  {
    if n == 0 then [] else ToBits(v / 2, n - 1) + [v % 2 == 1]
  }

  /** The unsigned value of a most-significant-first bit string. */
  function FromBits(bs: seq<bool>): (v: nat)
    ensures v < Pow2(|bs|)
  {
    if |bs| == 0 then 0
    else 2 * FromBits(bs[..|bs| - 1]) + (if bs[|bs| - 1] then 1 else 0)
  }

  /** Bytes read as one unsigned big-endian number: the first byte is the most
      significant one. */
  function BigEndian(bytes: seq<Byte>): (v: nat)
    ensures v < Pow2(8 * |bytes|)
  {
    if |bytes| == 0 then 0
    else
      var n := |bytes| - 1;
      var high := BigEndian(bytes[..n]);
      Pow2Add(8 * n, 8);
      assert Pow2(8) == 256;
      assert high * 256 + bytes[n] < (high + 1) * 256 <= Pow2(8 * n) * 256;
      high * 256 + bytes[n]
  }

  /** Bit `bitIndex` of a byte array, bit 0 being the most significant bit of
      byte 0. */
  predicate GetBit(bytes: seq<Byte>, bitIndex: nat)
    requires bitIndex < 8 * |bytes|
  {
    TestBit(bytes[bitIndex / 8], 7 - bitIndex % 8)
  }

  /** Every bit of a byte array in `getBit` order. */
  function BytesKey(bytes: seq<Byte>): (k: seq<bool>)
    ensures |k| == 8 * |bytes|
  {
    seq(8 * |bytes|, i requires 0 <= i < 8 * |bytes| => GetBit(bytes, i))
  }

  /** How many times a counted loop `for (i = 0; i < n; i++)`, or one written
      downwards over n positions, runs: none at all when n is negative. */
  function Iterations(n: int): (k: nat)
    ensures n >= 0 ==> k == n
    ensures n < 0 ==> k == 0
  {
    if n < 0 then 0 else n
  }

  // ---------------------------------------------------------------------
  // Arithmetic helpers

  lemma {:induction false} Pow2Add(a: nat, b: nat)
    ensures Pow2(a + b) == Pow2(a) * Pow2(b)
    decreases a
  {
    if a > 0 {
      Pow2Add(a - 1, b);
    }
  }

  lemma MulAtLeast(d: int, k: int)
    requires d > 0 && k >= 1
    ensures d * k >= d
  {
    assert d * k == d * (k - 1) + d;
  }

  lemma DivUnique(v: int, d: int, q: int, r: int)
    requires d > 0 && 0 <= r < d && v == d * q + r
    ensures v / d == q && v % d == r
  {
    var q', r' := v / d, v % d;
    assert v == d * q' + r';
    assert d * q == d * (q - q') + d * q';
    if q > q' {
      MulAtLeast(d, q - q');
      assert false;
    } else if q < q' {
      MulAtLeast(d, q' - q);
      assert false;
    }
  }

  lemma DivDiv(v: int, a: int, b: int)
    requires a > 0 && b > 0
    ensures v / a / b == v / (a * b)
  {
    var q, r := v / a, v % a;
    var q2, r2 := q / b, q % b;
    assert v == a * q + r;
    assert q == b * q2 + r2;
    assert a * q == (a * b) * q2 + a * r2;
    MulAtLeast(a, b - r2);
    assert a * (b - r2) == a * b - a * r2;
    assert 0 <= a * r2;
    DivUnique(v, a * b, q2, a * r2 + r);
  }

  // ---------------------------------------------------------------------
  // ToBits against the shift-and-mask reading, and its inverse

  /** Position j of the bit string is the shift-and-mask bit n-1-j: the string
      is read most significant bit first. */
  lemma {:induction false} ToBitsIndex(v: int, n: nat, j: nat)
    requires j < n
    ensures ToBits(v, n)[j] == TestBit(v, n - 1 - j)
    decreases n
  {
    if j < n - 1 {
      ToBitsIndex(v / 2, n - 1, j);
      DivDiv(v, 2, Pow2(n - 2 - j));
    }
  }

  /** Reading back the n low bits of a value below 2^n gives the value. */
  lemma {:induction false} FromToBits(v: int, n: nat)
    requires 0 <= v < Pow2(n)
    ensures FromBits(ToBits(v, n)) == v
  {
    if n > 0 {
      var bs, high := ToBits(v, n), v / 2;
      assert v == 2 * high + v % 2;
      assert high < Pow2(n - 1);
      assert bs[..n - 1] == ToBits(high, n - 1) && bs[n - 1] == (v % 2 == 1);
      FromToBits(high, n - 1);
      assert FromBits(bs) == 2 * high + (if bs[n - 1] then 1 else 0);
    }
  }

  /** Writing out the value of a bit string gives the bit string back. */
  lemma {:induction false} ToFromBits(bs: seq<bool>)
    ensures ToBits(FromBits(bs), |bs|) == bs
  {
    if |bs| > 0 {
      var n := |bs| - 1;
      var b := if bs[n] then 1 else 0;
      var v := FromBits(bs);
      DivUnique(v, 2, FromBits(bs[..n]), b);
      ToFromBits(bs[..n]);
      assert bs == bs[..n] + [bs[n]];
    }
  }

  /** Two values below 2^n with the same n-bit expansion are equal. */
  lemma ToBitsInjective(v: int, w: int, n: nat)
    requires 0 <= v < Pow2(n) && 0 <= w < Pow2(n)
    requires ToBits(v, n) == ToBits(w, n)
    ensures v == w
  {
    FromToBits(v, n);
    FromToBits(w, n);
  }

  /** The expansion of a concatenated number is the concatenation of the
      expansions of its high and low parts. */
  lemma {:induction false} ToBitsAppend(x: int, y: int, n: nat, m: nat)
    requires 0 <= y < Pow2(m)
    ensures ToBits(x * Pow2(m) + y, n + m) == ToBits(x, n) + ToBits(y, m)
    decreases m
  {
    if m > 0 {
      var v := x * Pow2(m) + y;
      var high := x * Pow2(m - 1) + y / 2;
      assert v == 2 * high + y % 2;
      DivUnique(v, 2, high, y % 2);
      ToBitsAppend(x, y / 2, n, m - 1);
    }
  }

  // ---------------------------------------------------------------------
  // getBit against the big-endian reading

  lemma BytesKeySnoc(bytes: seq<Byte>, b: Byte)
    ensures BytesKey(bytes + [b]) == BytesKey(bytes) + ToBits(b, 8)
  {
    var all := bytes + [b];
    var n := |bytes|;
    forall i | 0 <= i < 8 * n + 8
      ensures BytesKey(all)[i] == (BytesKey(bytes) + ToBits(b, 8))[i]
    {
      if i >= 8 * n {
        var j := i - 8 * n;
        DivUnique(i, 8, n, j);
        ToBitsIndex(b, 8, j);
        assert BytesKey(all)[i] == TestBit(b, 7 - j);
      } else {
        DivUnique(i, 8, i / 8, i % 8);
        assert i / 8 < n;
        assert all[i / 8] == bytes[i / 8];
        assert BytesKey(all)[i] == GetBit(bytes, i) == BytesKey(bytes)[i];
      }
    }
    assert |BytesKey(all)| == |BytesKey(bytes) + ToBits(b, 8)|;
  }

  /** `getBit` order is the most-significant-first expansion of the array read
      as one big-endian number. */
  lemma {:induction false} BytesKeyIsBigEndian(bytes: seq<Byte>)
    ensures BytesKey(bytes) == ToBits(BigEndian(bytes), 8 * |bytes|)
  {
    if |bytes| > 0 {
      var n := |bytes| - 1;
      var init, last := bytes[..n], bytes[n];
      assert bytes == init + [last];
      BytesKeySnoc(init, last);
      BytesKeyIsBigEndian(init);
      assert Pow2(8) == 256;
      assert BigEndian(bytes) == BigEndian(init) * Pow2(8) + last;
      ToBitsAppend(BigEndian(init), last, 8 * n, 8);
    }
  }

  /** `getBit(bytes, i)` is bit 8|bytes| - 1 - i of the array read as one
      big-endian number: bit 0 is the most significant. */
  lemma GetBitIsBigEndian(bytes: seq<Byte>, bitIndex: nat)
    requires bitIndex < 8 * |bytes|
    ensures GetBit(bytes, bitIndex) == TestBit(BigEndian(bytes), 8 * |bytes| - 1 - bitIndex)
  {
    var v, n := BigEndian(bytes), 8 * |bytes|;
    BytesKeyIsBigEndian(bytes);
    KeyBit(bytes, bitIndex, ToBits(v, n));
    ToBitsIndex(v, n, bitIndex);
  }

  lemma KeyBit(bytes: seq<Byte>, bitIndex: nat, key: seq<bool>)
    requires key == BytesKey(bytes) && bitIndex < |key|
    ensures GetBit(bytes, bitIndex) == key[bitIndex]
  {
  }

  /** Distinct byte arrays of one length read as distinct numbers. */
  lemma {:induction false} BigEndianInjective(a: seq<Byte>, b: seq<Byte>)
    requires |a| == |b|
    requires BigEndian(a) == BigEndian(b)
    ensures a == b
  {
    if |a| > 0 {
      var n := |a| - 1;
      DivUnique(BigEndian(a), 256, BigEndian(a[..n]), a[n]);
      DivUnique(BigEndian(b), 256, BigEndian(b[..n]), b[n]);
      BigEndianInjective(a[..n], b[..n]);
      assert a == a[..n] + [a[n]];
      assert b == b[..n] + [b[n]];
    }
  }

  /** Distinct byte arrays of one length have distinct keys. */
  lemma BytesKeyInjective(a: seq<Byte>, b: seq<Byte>)
    requires |a| == |b|
    requires BytesKey(a) == BytesKey(b)
    ensures a == b
  {
    BytesKeyIsBigEndian(a);
    BytesKeyIsBigEndian(b);
    ToBitsInjective(BigEndian(a), BigEndian(b), 8 * |a|);
    BigEndianInjective(a, b);
  }
}
