/**
 * The 7-bit group format that carries the low bits of the encoded year
 * after the base block. Each byte holds one 7-bit group in its low bits.
 * Its top bit is the continuation flag: set means more groups follow.
 * Groups are written most significant first. A decoder shifts each group
 * into the value it already holds, so a value preloaded with high bits
 * ends up with the groups appended below them.
 *
 * The codec calls `rvlq_encode_32` and `rvlq_decode_32` of an external
 * vlq library for this. That library is not part of this model.
 * `GroupCoder` stands for the pair of routines, and `EmitsMinimalGroups`
 * and `FoldsGroups` state what the codec assumes of them.
 */
module Groups {
  import opened Arith

  datatype Option<T> = None | Some(value: T)

  /** `v` as exactly `n` groups, most significant group first. */
  function Encode(v: nat, n: nat): (s: seq<byte>)
    requires n >= 1 && v < Pow2(7 * n)
    ensures |s| == n
    ensures forall k :: 0 <= k < n - 1 ==> s[k] >= 128
    ensures s[n - 1] < 128
    decreases n
  {
    Pow2Group(n);
    if n == 1 then
      assert Pow2(7 * (n - 1)) == 1;
      [v]
    else
      var rest := Pow2(7 * (n - 1));
      DivBelow(v, rest, 128);
      var top: byte := 128 + v / rest;
      [top] + Encode(v % rest, n - 1)
  }

  /**
   * What a decoder does with `src` when it holds `acc`: shift each group in
   * until a byte whose continuation flag is clear. It gives the new value
   * and the number of bytes consumed, or None when `src` ends first.
   */
  function Decode(acc: nat, src: seq<byte>): (r: Option<(nat, nat)>)
    ensures r.Some? ==> 1 <= r.value.1 <= |src|
    ensures r.Some? ==> src[r.value.1 - 1] < 128
    ensures r.Some? ==> forall k :: 0 <= k < r.value.1 - 1 ==> src[k] >= 128
    decreases |src|
  {
    if src == [] then None
    else
      var acc' := acc * 128 + src[0] % 128;
      if src[0] < 128 then Some((acc', 1))
      else match Decode(acc', src[1..])
        case None => None
        case Some((v, k)) => Some((v, k + 1))
  }

  /** The fewest groups that hold `v`: one, plus one per further 7 bits. */
  function MinGroups(v: nat): (n: nat)
    ensures n >= 1 && v < Pow2(7 * n)
    ensures n > 1 ==> v >= Pow2(7 * (n - 1))
  {
    if v < 128 then
      assert Pow2(7) == 128;
      1
    else
      var k := MinGroups(v / 128);
      var n := k + 1;
      Pow2Group(n);
      Pow2Group(k);
      assert 7 * (n - 1) == 7 * k;
      n
  }

  /** A count with the defining bounds is the fewest groups. */
  lemma {:induction false} MinGroupsUnique(v: nat, n: nat)
    requires n >= 1 && v < Pow2(7 * n)
    requires n > 1 ==> v >= Pow2(7 * (n - 1))
    ensures MinGroups(v) == n
  {
    var k := MinGroups(v);
    if k < n {
      Pow2Monotone(7 * k, 7 * (n - 1));
    } else if k > n {
      Pow2Monotone(7 * n, 7 * (k - 1));
    }
  }

  /** Any count of groups that holds `v` is at least the fewest. */
  lemma MinGroupsAtMost(v: nat, n: nat)
    requires n >= 1 && v < Pow2(7 * n)
    ensures MinGroups(v) <= n
  {
    var k := MinGroups(v);
    if k > n {
      Pow2Monotone(7 * n, 7 * (k - 1));
    }
  }

  /** Decoding `n` groups of `v` into `acc` appends `v` below `acc` and consumes `n` bytes. */
  lemma {:induction false} DecodeEncode(acc: nat, v: nat, n: nat, rest: seq<byte>)
    requires n >= 1 && v < Pow2(7 * n)
    ensures Decode(acc, Encode(v, n) + rest) == Some((acc * Pow2(7 * n) + v, n))
    decreases n
  {
    if n == 1 {
      DecodeLastGroup(acc, v, n, rest);
    } else {
      var p := Pow2(7 * (n - 1));
      EncodeHead(v, n);
      var acc': nat := acc * 128 + v / p;
      DecodeEncode(acc', v % p, n - 1, rest);
      DecodeFirstGroup(acc, v, n, rest, acc');
    }
  }

  /** A single group ends the decoding. */
  lemma DecodeLastGroup(acc: nat, v: nat, n: nat, rest: seq<byte>)
    requires n == 1 && v < Pow2(7 * n)
    ensures Decode(acc, Encode(v, n) + rest) == Some((acc * Pow2(7 * n) + v, n))
  {
    var q := Pow2(7 * n);
    assert q == 128 by {
      Pow2Group(n);
    }
    var s := Encode(v, n) + rest;
    assert s[0] == v;
    var total: nat := acc * 128 + v;
    assert Decode(acc, s) == Some((total, 1));
    assert acc * q == acc * 128;
  }

  /** The first of several groups is shifted in before the others. */
  lemma DecodeFirstGroup(acc: nat, v: nat, n: nat, rest: seq<byte>, acc': nat)
    requires n > 1 && v < Pow2(7 * n)
    requires acc' == acc * 128 + v / Pow2(7 * (n - 1))
    requires Decode(acc', Encode(v % Pow2(7 * (n - 1)), n - 1) + rest)
             == Some((acc' * Pow2(7 * (n - 1)) + v % Pow2(7 * (n - 1)), n - 1))
    ensures Decode(acc, Encode(v, n) + rest) == Some((acc * Pow2(7 * n) + v, n))
  {
    var p := Pow2(7 * (n - 1));
    var tail := Encode(v % p, n - 1) + rest;
    EncodeHead(v, n);
    assert Encode(v, n) + rest == [128 + v / p] + tail;
    DecodeContinue(acc, 128 + v / p, tail, acc');
    ShiftInGroup(acc, acc', v, n);
  }

  /** Appending the top group of `v` to `acc`, then the rest of `v`, appends all of `v`. */
  lemma ShiftInGroup(acc: nat, acc': nat, v: nat, n: nat)
    requires n > 1 && acc' == acc * 128 + v / Pow2(7 * (n - 1))
    ensures acc' * Pow2(7 * (n - 1)) + v % Pow2(7 * (n - 1)) == acc * Pow2(7 * n) + v
  {
    var p := Pow2(7 * (n - 1));
    var top, low := v / p, v % p;
    DivMod(v, p);
    Pow2Group(n);
    assert acc' * p == acc * 128 * p + top * p;
    assert acc * 128 * p == acc * Pow2(7 * n);
  }

  /** A byte with the continuation flag set shifts its group in and defers to the rest. */
  lemma DecodeContinue(acc: nat, b: byte, tail: seq<byte>, acc': nat)
    requires b >= 128 && acc' == acc * 128 + b % 128
    ensures Decode(acc', tail).Some? ==>
      Decode(acc, [b] + tail) == Some((Decode(acc', tail).value.0, Decode(acc', tail).value.1 + 1))
  {
    assert ([b] + tail)[1..] == tail;
  }

  /** The first of several groups carries the top 7 bits with the continuation flag set. */
  lemma EncodeHead(v: nat, n: nat)
    requires n > 1 && v < Pow2(7 * n)
    ensures 0 <= v / Pow2(7 * (n - 1)) < 128
    ensures Encode(v, n) == [128 + v / Pow2(7 * (n - 1))] + Encode(v % Pow2(7 * (n - 1)), n - 1)
  {
    Pow2Group(n);
    DivBelow(v, Pow2(7 * (n - 1)), 128);
  }


  /** The external routines: the bytes the encoder writes for a value given the room left, and the decoder's new value and return count. */
  datatype GroupCoder = GroupCoder(encode: (nat, nat) -> seq<byte>, decode: (nat, seq<byte>) -> (nat, int))

  /** The encoder never writes past the room it is given. */
  ghost predicate StaysWithin(gc: GroupCoder) {
    forall v, room :: |gc.encode(v, room)| <= room
  }

  /** The encoder writes the fewest groups that hold the value whenever they fit. */
  ghost predicate EmitsMinimalGroups(gc: GroupCoder) {
    forall v, room :: MinGroups(v) <= room ==> gc.encode(v, room) == Encode(v, MinGroups(v))
  }

  /**
   * On a well-terminated source whose folded value fits the decoder's 32-bit
   * destination, the decoder shifts the groups into the preloaded value and
   * returns their count.
   */
  ghost predicate FoldsGroups(gc: GroupCoder) {
    forall acc, src {:trigger gc.decode(acc, src)} :: Decode(acc, src).Some? && Decode(acc, src).value.0 < UINT32_LIMIT ==>
      gc.decode(acc, src) == (Decode(acc, src).value.0, Decode(acc, src).value.1 as int)
  }
}
