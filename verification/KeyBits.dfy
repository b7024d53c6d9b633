/** Keys of the crit-bit dictionary as bit strings.

    A key is a C string, written without its terminator; reading at or past its
    end yields the terminator, whose bits are all zero.  Bits are numbered from
    the front of the key, most significant bit of each byte first, so that the
    source's pair (byte_idx, bit_idx) is the single position
    8 * byte_idx + 7 - bit_idx. */
module KeyBits {

  type Key = k: seq<bv8> | forall i :: 0 <= i < |k| ==> k[i] != 0

  /** What the source reads at k[i]; i == strlen(k) is the last legal index. */
  function CharAt(k: Key, i: nat): bv8
    requires i <= |k|
  {
    if i < |k| then k[i] else 0
  }

  predicate BitOf(b: bv8, i: nat)
    requires i < 8
  {
    (b >> i) & 1 == 1
  }

  /** The branch that key k takes at a node testing (byteIdx, bitIdx). */
  predicate Direction(k: Key, byteIdx: nat, bitIdx: nat)
    requires bitIdx < 8
  {
    byteIdx < |k| && BitOf(k[byteIdx], bitIdx)
  }

  function Position(byteIdx: nat, bitIdx: nat): nat
    requires bitIdx < 8
  {
    8 * byteIdx + (7 - bitIdx)
  }

  /** Bit p of the key, continued with zeros for ever. */
  ghost predicate KeyBit(k: Key, p: nat) {
    Direction(k, p / 8, 7 - p % 8)
  }

  /** The two keys have the same bits before position p. */
  ghost predicate Agree(x: Key, y: Key, p: nat) {
    forall q: nat :: q < p ==> KeyBit(x, q) == KeyBit(y, q)
  }

  lemma DirectionIsKeyBit(k: Key, byteIdx: nat, bitIdx: nat)
    requires bitIdx < 8
    ensures KeyBit(k, Position(byteIdx, bitIdx)) == Direction(k, byteIdx, bitIdx)
  {
    assert Position(byteIdx, bitIdx) / 8 == byteIdx;
    assert Position(byteIdx, bitIdx) % 8 == 7 - bitIdx;
  }

  // ----- one byte -----

  /** Index of the highest set bit, by the source's shift loop. */
  function TopBit(x: bv8): nat
    decreases x
  {
    if x >> 1 == 0 then 0 else 1 + TopBit(x >> 1)
  }

  lemma {:induction false} TopBitFromShift(x: bv8, t: nat)
    requires t < 8 && x >> t == 1
    ensures TopBit(x) == t
    decreases t
  {
    if t == 0 {
      assert x == 1;
    } else {
      assert (x >> 1) >> (t - 1) == x >> t by { ShiftSplits(x, t); }
      TopBitFromShift(x >> 1, t - 1);
      assert x >> 1 != 0;
    }
  }

  lemma ShiftSplits(x: bv8, t: nat)
    requires 0 < t < 8
    ensures (x >> 1) >> (t - 1) == x >> t
  {
    if t == 1 {} else if t == 2 {} else if t == 3 {} else if t == 4 {}
    else if t == 5 {} else if t == 6 {} else {}
  }

  ghost predicate SplitsAt(a: bv8, b: bv8, t: nat)
    requires t < 8
  {
    && (a ^ b) >> t == 1
    && BitOf(a, t) != BitOf(b, t)
    && (BitOf(a, t) <==> b < a)
    && forall j: nat :: t < j < 8 ==> BitOf(a, j) == BitOf(b, j)
  }

  lemma {:induction false} NothingAbove(x: bv8, t: nat, j: nat)
    requires t < j < 8 && x >> t == 1
    ensures x >> j == 0
    decreases t
  {
    if t > 0 {
      ShiftSplits(x, t);
      ShiftSplits(x, j);
      NothingAbove(x >> 1, t - 1, j - 1);
    } else if j == 1 {} else if j == 2 {} else if j == 3 {} else if j == 4 {}
    else if j == 5 {} else if j == 6 {} else {}
  }

  lemma BitOfXor(a: bv8, b: bv8, j: nat)
    requires j < 8
    ensures (a ^ b) >> j == 0 ==> BitOf(a, j) == BitOf(b, j)
    ensures (a ^ b) >> j == 1 ==> BitOf(a, j) != BitOf(b, j) && (BitOf(a, j) <==> b < a)
  {
    if j == 0 {} else if j == 1 {} else if j == 2 {} else if j == 3 {}
    else if j == 4 {} else if j == 5 {} else if j == 6 {} else {}
  }

  lemma ShiftSplitsBytes(a: bv8, b: bv8, t: nat)
    requires t < 8 && (a ^ b) >> t == 1
    ensures SplitsAt(a, b, t)
  {
    BitOfXor(a, b, t);
    forall j: nat | t < j < 8
      ensures BitOf(a, j) == BitOf(b, j)
    {
      NothingAbove(a ^ b, t, j);
      BitOfXor(a, b, j);
    }
  }

  /** The highest differing bit of two bytes decides their unsigned order, and
      no higher bit tells them apart. */
  lemma TopBitOfDifference(a: bv8, b: bv8)
    requires a != b
    ensures TopBit(a ^ b) < 8
    ensures SplitsAt(a, b, TopBit(a ^ b))
  {
    var x := a ^ b;
    var t := if x >> 7 == 1 then 7 else if x >> 6 == 1 then 6 else if x >> 5 == 1 then 5
             else if x >> 4 == 1 then 4 else if x >> 3 == 1 then 3 else if x >> 2 == 1 then 2
             else if x >> 1 == 1 then 1 else 0;
    TopBitFromShift(x, t);
    ShiftSplitsBytes(a, b, t);
  }

  lemma ByteOrder(a: bv8, b: bv8, t: nat)
    requires t < 8 && !BitOf(a, t) && BitOf(b, t)
    requires forall j: nat :: t < j < 8 ==> BitOf(a, j) == BitOf(b, j)
    ensures a < b
  {
    TopBitOfDifference(a, b);
    var s := TopBit(a ^ b);
    assert s <= t;
    assert t <= s;
  }

  lemma SameBitsSameByte(a: bv8, b: bv8)
    requires forall j: nat :: j < 8 ==> BitOf(a, j) == BitOf(b, j)
    ensures a == b
  {
    if a != b {
      TopBitOfDifference(a, b);
    }
  }

  // ----- whole keys -----

  /** Unsigned-byte lexicographic order: strcmp(x, y) < 0. */
  ghost predicate Less(x: Key, y: Key) {
    exists i: nat :: DiffersAt(x, y, i) && CharAt(x, i) < CharAt(y, i)
  }

  /** i is the first index at which the two C strings differ. */
  ghost predicate DiffersAt(x: Key, y: Key, i: nat) {
    i <= |x| && i <= |y| && x[..i] == y[..i] && CharAt(x, i) != CharAt(y, i)
  }

  /** The pair (byte, bit) that dict_set computes is the first position at which
      the two keys' bits differ. */
  lemma DifferenceFound(x: Key, y: Key, byteIdx: nat)
    requires DiffersAt(x, y, byteIdx)
    ensures var bitIdx := TopBit(CharAt(x, byteIdx) ^ CharAt(y, byteIdx));
      bitIdx < 8 && FirstDifference(x, y, Position(byteIdx, bitIdx))
  {
    TopBitOfDifference(CharAt(x, byteIdx), CharAt(y, byteIdx));
    DifferencePosition(x, y, byteIdx, TopBit(CharAt(x, byteIdx) ^ CharAt(y, byteIdx)));
  }

  ghost predicate FirstDifference(x: Key, y: Key, p: nat) {
    Agree(x, y, p) && KeyBit(x, p) != KeyBit(y, p)
  }

  lemma DifferencePosition(x: Key, y: Key, byteIdx: nat, bitIdx: nat)
    requires DiffersAt(x, y, byteIdx) && bitIdx < 8
    requires SplitsAt(CharAt(x, byteIdx), CharAt(y, byteIdx), bitIdx)
    ensures FirstDifference(x, y, Position(byteIdx, bitIdx))
  {
    ZeroHasNoBits();
    DirectionIsKeyBit(x, byteIdx, bitIdx);
    DirectionIsKeyBit(y, byteIdx, bitIdx);
    forall q: nat | q < Position(byteIdx, bitIdx)
      ensures KeyBit(x, q) == KeyBit(y, q)
    {
      SameBitBefore(x, y, byteIdx, bitIdx, q);
    }
  }

  lemma SameBitBefore(x: Key, y: Key, byteIdx: nat, bitIdx: nat, q: nat)
    requires DiffersAt(x, y, byteIdx) && bitIdx < 8
    requires SplitsAt(CharAt(x, byteIdx), CharAt(y, byteIdx), bitIdx)
    requires q < Position(byteIdx, bitIdx)
    ensures KeyBit(x, q) == KeyBit(y, q)
  {
    var i, j := q / 8, 7 - q % 8;
    if i < byteIdx {
      assert x[i] == x[..byteIdx][i] == y[..byteIdx][i] == y[i];
    } else {
      assert i == byteIdx && bitIdx < j;
      ZeroHasNoBits();
      assert BitOf(CharAt(x, i), j) == BitOf(CharAt(y, i), j);
    }
  }

  lemma ZeroHasNoBits()
    ensures forall j: nat :: j < 8 ==> !BitOf(0, j)
  {
  }

  /** Two keys that agree on the first 8n bits have the same first n bytes. */
  lemma {:induction false} AgreeingBytes(x: Key, y: Key, n: nat)
    requires Agree(x, y, 8 * n) && n <= |y|
    ensures n <= |x| && x[..n] == y[..n]
    decreases n
  {
    if n > 0 {
      AgreeingBytes(x, y, n - 1);
      var a, b := CharAt(x, n - 1), CharAt(y, n - 1);
      ZeroHasNoBits();
      forall j: nat | j < 8
        ensures BitOf(a, j) == BitOf(b, j)
      {
        DirectionIsKeyBit(x, n - 1, j);
        DirectionIsKeyBit(y, n - 1, j);
        assert KeyBit(x, Position(n - 1, j)) == KeyBit(y, Position(n - 1, j));
      }
      SameBitsSameByte(a, b);
      assert x[..n] == x[..n - 1] + [a];
      assert y[..n] == y[..n - 1] + [b];
    }
  }

  /** Bit order is byte order: the key with the zero at the first differing
      position is the smaller C string. */
  lemma BitOrderIsByteOrder(x: Key, y: Key, p: nat)
    requires Agree(x, y, p) && !KeyBit(x, p) && KeyBit(y, p)
    ensures Less(x, y)
  {
    var n, t := p / 8, 7 - p % 8;
    AgreeingBytes(x, y, n);
    var a, b := CharAt(x, n), y[n];
    ZeroHasNoBits();
    forall j: nat | t < j < 8
      ensures BitOf(a, j) == BitOf(b, j)
    {
      DirectionIsKeyBit(x, n, j);
      DirectionIsKeyBit(y, n, j);
      assert KeyBit(x, Position(n, j)) == KeyBit(y, Position(n, j));
    }
    ByteOrder(a, b, t);
    assert DiffersAt(x, y, n);
  }

  ghost predicate HasPrefix(x: Key, prefix: Key) {
    |prefix| <= |x| && x[..|prefix|] == prefix
  }

  lemma PrefixIsAgreement(x: Key, prefix: Key)
    ensures HasPrefix(x, prefix) <==> Agree(x, prefix, 8 * |prefix|)
  {
    var n := |prefix|;
    if Agree(x, prefix, 8 * n) {
      AgreeingBytes(x, prefix, n);
      assert prefix[..n] == prefix;
    }
    if HasPrefix(x, prefix) {
      forall q: nat | q < 8 * n
        ensures KeyBit(x, q) == KeyBit(prefix, q)
      {
        assert x[q / 8] == x[..n][q / 8];
      }
    }
  }

  /** Byte order is a strict total order on keys. */
  lemma LessIsTotalOrder(x: Key, y: Key, z: Key)
    ensures x == y || Less(x, y) || Less(y, x)
    ensures !(Less(x, y) && Less(y, x)) && !Less(x, x)
    ensures Less(x, y) && Less(y, z) ==> Less(x, z)
  {
    if x != y {
      var i := FirstDifferingByte(x, y);
    }
    if Less(x, y) {
      var i: nat :| DiffersAt(x, y, i) && CharAt(x, i) < CharAt(y, i);
      forall j: nat | DiffersAt(y, x, j) ensures i == j {
        DiffersOnce(x, y, i, j);
      }
      if Less(y, z) {
        var j: nat :| DiffersAt(y, z, j) && CharAt(y, j) < CharAt(z, j);
        LessChains(x, y, z, i, j);
      }
    }
  }

  lemma {:induction false} FirstDifferingByte(x: Key, y: Key) returns (i: nat)
    requires x != y
    ensures DiffersAt(x, y, i)
  {
    i := 0;
    while i < |x| && i < |y| && x[i] == y[i]
      invariant i <= |x| && i <= |y| && x[..i] == y[..i]
      decreases |x| - i
    {
      i := i + 1;
    }
    assert x[..|x|] == x && y[..|y|] == y;
  }

  lemma SameBefore(x: Key, y: Key, n: nat, k: nat)
    requires k <= n <= |x| && n <= |y| && x[..n] == y[..n]
    ensures x[..k] == y[..k] && (k < n ==> CharAt(x, k) == CharAt(y, k))
  {
    assert x[..n][..k] == x[..k] && y[..n][..k] == y[..k];
    if k < n {
      assert x[..n][k] == y[..n][k];
    }
  }

  lemma DiffersOnce(x: Key, y: Key, i: nat, j: nat)
    requires DiffersAt(x, y, i) && DiffersAt(y, x, j)
    ensures i == j
  {
    if i < j {
      SameBefore(x, y, j, i);
    } else if j < i {
      SameBefore(x, y, i, j);
    }
  }

  lemma LessChains(x: Key, y: Key, z: Key, i: nat, j: nat)
    requires DiffersAt(x, y, i) && CharAt(x, i) < CharAt(y, i)
    requires DiffersAt(y, z, j) && CharAt(y, j) < CharAt(z, j)
    ensures Less(x, z)
  {
    hide CharAt;
    var k := if i < j then i else j;
    SameBefore(x, y, i, k);
    SameBefore(y, z, j, k);
    assert DiffersAt(x, z, k);
  }
}
