/**
 * Big-endian byte sequences: how the codec writes its base-block
 * accumulator (most significant byte first) and how it reads one back by
 * repeatedly shifting left by 8 and or-ing in the next byte.
 */
module Bytes {
  import opened Arith

  /** The low n bytes of x, most significant first: byte k is `(uint8_t)(x >> 8*(n-1-k))`. */
  function BigEndian(x: nat, n: nat): (s: seq<byte>)
    ensures |s| == n
  {
    seq(n, k requires 0 <= k < n => Shr(x, 8 * (n - 1 - k)) % 256)
  }

  /** The value of bytes read most significant first: `acc = (acc << 8) | byte` for each byte. */
  function Value(s: seq<byte>): nat
  {
    if s == [] then 0 else Value(s[..|s| - 1]) * 256 + s[|s| - 1]
  }

  /** n bytes hold values below 2^(8n). */
  lemma {:induction false} ValueBound(s: seq<byte>)
    ensures Value(s) < Pow2(8 * |s|)
  {
    if s != [] {
      var init := s[..|s| - 1];
      ValueBound(init);
      Pow2Group8(|init|);
    }
  }

  /** Writing the low n bytes of x and reading them back gives x when it fits. */
  lemma {:induction false} ValueBigEndian(x: nat, n: nat)
    requires x < Pow2(8 * n)
    ensures Value(BigEndian(x, n)) == x
  {
    if n > 0 {
      var s := BigEndian(x, n);
      assert Pow2(8) == 256;
      Pow2Add(8 * (n - 1), 8);
      DivBelow(x, Pow2(8 * (n - 1)), 256);
      ShrIsDiv(x, 8);
      assert s[..n - 1] == BigEndian(x / 256, n - 1) by {
        forall k | 0 <= k < n - 1
          ensures s[k] == BigEndian(x / 256, n - 1)[k]
        {
          ShrShr(x, 8, 8 * (n - 2 - k));
          assert 8 + 8 * (n - 2 - k) == 8 * (n - 1 - k);
        }
      }
      assert s[n - 1] == x % 256 by {
        assert 8 * (n - 1 - (n - 1)) == 0;
        assert Shr(x, 0) == x;
      }
      ValueBigEndian(x / 256, n - 1);
    }
  }

  lemma Pow2Group8(n: nat)
    ensures Pow2(8 * (n + 1)) == Pow2(8 * n) * 256
  {
    Pow2Add(8 * n, 8);
    assert 8 * n + 8 == 8 * (n + 1);
    assert Pow2(8) == 256;
  }

  /**
   * Clearing the top two bits of the first of n bytes before reading them
   * keeps the value modulo 2^(8n-2); the two cleared bits are the quotient.
   */
  lemma {:induction false} TopTwoBits(s: seq<byte>)
    requires |s| >= 1
    ensures Value([s[0] % 64] + s[1..]) == Value(s) % Pow2(8 * |s| - 2)
    ensures s[0] / 64 == Value(s) / Pow2(8 * |s| - 2)
    decreases |s|
  {
    if |s| == 1 {
      assert Pow2(6) == 64;
      assert [s[0] % 64] + s[1..] == [s[0] % 64];
      assert Value([s[0] % 64]) == Value([]) * 256 + s[0] % 64;
    } else {
      var init, z := s[..|s| - 1], s[|s| - 1];
      var masked := [s[0] % 64] + s[1..];
      assert masked[..|s| - 1] == [init[0] % 64] + init[1..];
      TopTwoBits(init);
      var q := Pow2(8 * |init| - 2);
      assert Pow2(8 * |s| - 2) == q * 256 by {
        Pow2Add(8 * |init| - 2, 8);
        assert Pow2(8) == 256;
      }
      AppendByte(Value(init), z, q);
    }
  }

  /** Appending a byte to a value shifts both its quotient and its remainder by q one byte up. */
  lemma AppendByte(v: nat, z: byte, q: nat)
    requires q > 0
    ensures (v * 256 + z) / (q * 256) == v / q
    ensures (v * 256 + z) % (q * 256) == (v % q) * 256 + z
  {
    var hi, lo := v / q, v % q;
    assert v * 256 + z == hi * (q * 256) + (lo * 256 + z) by {
      assert v == hi * q + lo;
    }
    assert lo * 256 + z < q * 256 by {
      assert lo <= q - 1;
    }
    DivModUnique(v * 256 + z, q * 256, hi, lo * 256 + z);
  }
}
