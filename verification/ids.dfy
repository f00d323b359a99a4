/**
 * Node ids and keys as the byte strings of util.go and iter_closest.go, and the
 * numbers they denote.
 */
module Ids {
  import RingMath

  newtype byte = x: int | 0 <= x < 256

  type Bytes = seq<byte>

  /** bytes.Compare: lexicographic, a proper prefix being smaller. */
  function Compare(a: Bytes, b: Bytes): int {
    if a == [] then
      if b == [] then 0 else -1
    else if b == [] then 1
    else if a[0] < b[0] then -1
    else if a[0] > b[0] then 1
    else Compare(a[1..], b[1..])
  }

  /** `between`. */
  predicate Between(id1: Bytes, id2: Bytes, key: Bytes) {
    if Compare(id1, id2) == 1 then
      Compare(id1, key) == -1 || Compare(id2, key) == 1
    else
      Compare(id1, key) == -1 && Compare(id2, key) == 1
  }

  /** `betweenRightIncl`. */
  predicate BetweenRightIncl(id1: Bytes, id2: Bytes, key: Bytes) {
    if Compare(id1, id2) == 1 then
      Compare(id1, key) == -1 || Compare(id2, key) >= 0
    else
      Compare(id1, key) == -1 && Compare(id2, key) >= 0
  }

  function Pow256(n: nat): (r: nat)
    ensures r > 0
  {
    if n == 0 then 1 else 256 * Pow256(n - 1)
  }

  /** The number a big-endian byte string denotes (big.Int.SetBytes). */
  function Value(b: Bytes): nat {
    if b == [] then 0 else b[0] as nat * Pow256(|b| - 1) + Value(b[1..])
  }

  /** The shortest big-endian byte string for n (big.Int.Bytes). */
  function ToBytes(n: nat): Bytes {
    if n == 0 then [] else ToBytes(n / 256) + [(n % 256) as byte]
  }

  /** `powerOffset`: (id + 2^exp) mod 2^mod, leading zero bytes dropped. */
  function PowerOffset(id: Bytes, exp: nat, mod: nat): Bytes {
    ToBytes((Value(id) + RingMath.Pow2(exp)) % RingMath.Pow2(mod))
  }

  /** `distance`. */
  function Distance(a: Bytes, b: Bytes, bits: nat): nat {
    (Value(b) - Value(a)) % RingMath.Pow2(bits)
  }

  lemma {:induction false} Pow256Adds(i: nat, j: nat)
    ensures Pow256(i) * Pow256(j) == Pow256(i + j)
    decreases i
  {
    if i > 0 {
      Pow256Adds(i - 1, j);
      calc {
        Pow256(i) * Pow256(j);
        256 * Pow256(i - 1) * Pow256(j);
        256 * (Pow256(i - 1) * Pow256(j));
        256 * Pow256(i - 1 + j);
        Pow256(i + j);
      }
    }
  }

  lemma {:induction false} Pow256IsPow2(w: nat)
    ensures Pow256(w) == RingMath.Pow2(8 * w)
  {
    if w > 0 {
      Pow256IsPow2(w - 1);
      var n := 8 * (w - 1);
      assert RingMath.Pow2(n + 4) == 16 * RingMath.Pow2(n) by {
        assert RingMath.Pow2(n + 2) == 4 * RingMath.Pow2(n);
        assert RingMath.Pow2(n + 4) == 4 * RingMath.Pow2(n + 2);
      }
      assert RingMath.Pow2(n + 6) == 4 * RingMath.Pow2(n + 4);
      assert RingMath.Pow2(n + 8) == 4 * RingMath.Pow2(n + 6);
      assert 8 * w == n + 8;
    }
  }

  lemma {:induction false} ValueBound(b: Bytes)
    ensures Value(b) < Pow256(|b|)
  {
    if b != [] {
      ValueBound(b[1..]);
      DigitBound(b[0] as nat, Pow256(|b| - 1), Value(b[1..]));
    }
  }

  lemma DigitBound(x: nat, p: nat, u: nat)
    requires x < 256 && u < p
    ensures x * p + u < 256 * p
  {
  }

  /** On ids of one width, lexicographic order is numeric order. */
  lemma {:induction false} CompareIsNumeric(a: Bytes, b: Bytes)
    requires |a| == |b|
    ensures Compare(a, b) == -1 <==> Value(a) < Value(b)
    ensures Compare(a, b) == 0 <==> Value(a) == Value(b)
    ensures Compare(a, b) == 1 <==> Value(a) > Value(b)
    ensures Value(a) == Value(b) <==> a == b
  {
    if a != [] {
      CompareIsNumeric(a[1..], b[1..]);
      ValueBound(a[1..]);
      ValueBound(b[1..]);
      LeadingByteDecides(a[0] as nat, b[0] as nat, Pow256(|a| - 1), Value(a[1..]), Value(b[1..]));
      assert a == [a[0]] + a[1..] && b == [b[0]] + b[1..];
    }
  }

  lemma LeadingByteDecides(x: nat, y: nat, p: nat, u: nat, v: nat)
    requires u < p && v < p
    ensures x < y ==> x * p + u < y * p + v
    ensures x > y ==> x * p + u > y * p + v
  {
    if x < y {
      assert (x + 1) * p <= y * p;
    } else if x > y {
      assert (y + 1) * p <= x * p;
    }
  }

  /** The byte-level `distance` is the clockwise distance of the numbers. */
  lemma DistanceIsDist(a: Bytes, b: Bytes)
    requires |a| == |b|
    ensures Distance(a, b, 8 * |a|) == RingMath.Dist(Pow256(|a|), Value(a), Value(b))
  {
    Pow256IsPow2(|a|);
    ValueBound(a);
    ValueBound(b);
    RingMath.DistIsMod(Pow256(|a|), Value(a), Value(b));
  }

  /**
   * The interval tests on ids of one width are the numeric ones, hence comparisons of
   * forward distances.
   */
  lemma IntervalsAreDistances(a: Bytes, b: Bytes, k: Bytes)
    requires |a| == |b| == |k|
    ensures Between(a, b, k) <==> RingMath.Between(Value(a), Value(b), Value(k))
    ensures BetweenRightIncl(a, b, k) <==> RingMath.BetweenRightIncl(Value(a), Value(b), Value(k))
    ensures Between(a, b, k) <==> 0 < Distance(a, k, 8 * |a|) < Distance(a, b, 8 * |a|)
    ensures BetweenRightIncl(a, b, k) <==> 0 < Distance(a, k, 8 * |a|) <= Distance(a, b, 8 * |a|)
  {
    CompareIsNumeric(a, b);
    CompareIsNumeric(a, k);
    CompareIsNumeric(b, k);
    DistanceIsDist(a, k);
    DistanceIsDist(a, b);
    ValueBound(a);
    ValueBound(b);
    ValueBound(k);
    RingMath.BetweenIsDistance(Pow256(|a|), Value(a), Value(b), Value(k));
  }

  // ---------- offsets with leading zero bytes dropped ----------

  lemma {:induction false} ValueSnoc(b: Bytes, x: byte)
    ensures Value(b + [x]) == 256 * Value(b) + x as nat
  {
    if b == [] {
      assert b + [x] == [x];
      assert Value([x]) == x as nat * Pow256(0) + Value([]);
    } else {
      ValueSnoc(b[1..], x);
      assert (b + [x])[1..] == b[1..] + [x];
      assert Pow256(|b|) == 256 * Pow256(|b| - 1);
    }
  }

  lemma {:induction false} ToBytesValue(n: nat)
    ensures Value(ToBytes(n)) == n
  {
    if n > 0 {
      ToBytesValue(n / 256);
      ValueSnoc(ToBytes(n / 256), (n % 256) as byte);
    }
  }

  /** A number needs w bytes exactly when it reaches 256^(w-1). */
  lemma {:induction false} ToBytesWidth(n: nat, w: nat)
    requires w > 0
    ensures |ToBytes(n)| >= w <==> n >= Pow256(w - 1)
    decreases n
  {
    if n > 0 {
      if w == 1 {
      } else {
        ToBytesWidth(n / 256, w - 1);
      }
    }
  }

  /** n written with exactly w bytes. */
  function FixedBytes(n: nat, w: nat): (b: Bytes)
    requires n < Pow256(w)
    ensures |b| == w
  {
    if w == 0 then [] else FixedBytes(n / 256, w - 1) + [(n % 256) as byte]
  }

  lemma {:induction false} FixedBytesValue(n: nat, w: nat)
    requires n < Pow256(w)
    ensures Value(FixedBytes(n, w)) == n
    decreases w
  {
    if w > 0 {
      FixedBytesValue(n / 256, w - 1);
      ValueSnoc(FixedBytes(n / 256, w - 1), (n % 256) as byte);
    }
  }

  /** Against a shorter key, an id compares as if the key were padded with zero bytes at its end. */
  lemma {:induction false} CompareWithShortKey(x: Bytes, k: Bytes)
    requires |k| < |x|
    ensures Compare(x, k) == if Value(x) < Value(k) * Pow256(|x| - |k|) then -1 else 1
  {
    if k != [] {
      CompareWithShortKey(x[1..], k[1..]);
      ValueBound(x[1..]);
      ValueBound(k[1..]);
      var d := |x| - |k|;
      var p := Pow256(|x| - 1);
      Pow256Adds(|k| - 1, d);
      PaddedDigits(k[0] as nat, Pow256(|k| - 1), Value(k[1..]), Pow256(d));
      LeadingByteDecides(x[0] as nat, k[0] as nat, p, Value(x[1..]), Value(k[1..]) * Pow256(d));
    }
  }

  lemma PaddedDigits(x: nat, q: nat, u: nat, c: nat)
    requires u < q && c > 0
    ensures (x * q + u) * c == x * (q * c) + u * c
    ensures u * c < q * c
  {
  }

  /** The number that `PowerOffset` writes down. */
  function OffsetValue(id: Bytes, exp: nat): nat {
    (Value(id) + RingMath.Pow2(exp)) % RingMath.Pow2(8 * |id|)
  }

  /** Every arc of a ring of w-byte ids contains the offset key exactly when it contains the offset number. */
  ghost predicate OffsetComparesAsItsValue(id: Bytes, exp: nat) {
    forall a: Bytes, b: Bytes {:trigger BetweenRightIncl(a, b, PowerOffset(id, exp, 8 * |id|))}
      | |a| == |id| && |b| == |id| && a != b ::
      BetweenRightIncl(a, b, PowerOffset(id, exp, 8 * |id|))
      <==> RingMath.BetweenRightIncl(Value(a), Value(b), OffsetValue(id, exp))
  }

  /**
   * A finger offset is looked up at the right place, whatever the ring, exactly when no
   * leading zero byte was dropped from it (or it is zero altogether).
   */
  lemma OffsetRightIffFullWidth(id: Bytes, exp: nat)
    requires |id| > 0
    ensures OffsetComparesAsItsValue(id, exp)
            <==> (OffsetValue(id, exp) == 0 || OffsetValue(id, exp) >= Pow256(|id| - 1))
  {
    var t := OffsetValue(id, exp);
    var k := PowerOffset(id, exp, 8 * |id|);
    if t == 0 || t >= Pow256(|id| - 1) {
      OffsetWidth(id, exp);
      forall a: Bytes, b: Bytes | |a| == |id| && |b| == |id| && a != b
        ensures BetweenRightIncl(a, b, k) <==> RingMath.BetweenRightIncl(Value(a), Value(b), t)
      {
        FullWidthOffset(a, b, k, t);
      }
    } else {
      StrippedOffsetMissed(id, exp);
    }
  }

  lemma OffsetWidth(id: Bytes, exp: nat)
    requires |id| > 0
    requires OffsetValue(id, exp) == 0 || OffsetValue(id, exp) >= Pow256(|id| - 1)
    ensures var k := PowerOffset(id, exp, 8 * |id|);
            Value(k) == OffsetValue(id, exp) && (k == [] || |k| == |id|)
  {
    var t := OffsetValue(id, exp);
    Pow256IsPow2(|id|);
    ToBytesValue(t);
    ToBytesWidth(t, |id|);
    ToBytesWidth(t, |id| + 1);
  }

  lemma FullWidthOffset(a: Bytes, b: Bytes, k: Bytes, t: nat)
    requires |a| == |b| && Value(k) == t
    requires k == [] || |k| == |a|
    ensures BetweenRightIncl(a, b, k) <==> RingMath.BetweenRightIncl(Value(a), Value(b), t)
  {
    CompareIsNumeric(a, b);
    if k == [] {
      assert Compare(a, k) >= 0 && Compare(b, k) >= 0;
    } else {
      CompareIsNumeric(a, k);
      CompareIsNumeric(b, k);
    }
  }

  lemma PaddingGrows(t: nat, d: nat)
    requires t > 0 && d > 0
    ensures t * Pow256(d) > t
  {
    Pow256Monotone(1, d);
    MulMono(t, 256, Pow256(d));
  }

  /** The arc ending at a short offset's own number contains the number but not the key. */
  lemma StrippedOffsetMissed(id: Bytes, exp: nat)
    requires |id| > 0
    requires 0 < OffsetValue(id, exp) < Pow256(|id| - 1)
    ensures !OffsetComparesAsItsValue(id, exp)
  {
    var t, w := OffsetValue(id, exp), |id|;
    var k := ToBytes(t);
    assert PowerOffset(id, exp, 8 * w) == k;
    hide PowerOffset, OffsetValue, ToBytes, FixedBytes, Pow256, Value, Compare, BetweenRightIncl;
    ToBytesValue(t);
    ToBytesWidth(t, w);
    Pow256Monotone(w - 1, w);
    var a, b := FixedBytes(t - 1, w), FixedBytes(t, w);
    FixedBytesValue(t - 1, w);
    FixedBytesValue(t, w);
    ShortKeyMissed(a, b, k, t);
  }

  lemma ShortKeyMissed(a: Bytes, b: Bytes, k: Bytes, t: nat)
    requires |k| < |a| == |b| && t > 0 && Value(a) == t - 1 && Value(b) == Value(k) == t
    ensures !BetweenRightIncl(a, b, k) && RingMath.BetweenRightIncl(Value(a), Value(b), t)
  {
    CompareIsNumeric(a, b);
    CompareWithShortKey(a, k);
    CompareWithShortKey(b, k);
    PaddingGrows(t, |a| - |k|);
    hide Compare, Value, Pow256;
  }

  lemma MulMono(t: nat, x: nat, y: nat)
    requires x <= y
    ensures t * x <= t * y && x * t <= y * t
  {
  }

  /** The offset key compares with every id as `RingMath.KeyOf` of its number, which pads it with zero bytes. */
  lemma OffsetComparesAsKeyOf(id: Bytes, exp: nat, a: Bytes, b: Bytes)
    requires |id| > 0 && |a| == |id| && |b| == |id|
    ensures var k := RingMath.KeyOf(Pow256(|id|), OffsetValue(id, exp));
            BetweenRightIncl(a, b, PowerOffset(id, exp, 8 * |id|)) <==> RingMath.BetweenRightIncl(Value(a), Value(b), k)
    ensures var k := RingMath.KeyOf(Pow256(|id|), OffsetValue(id, exp));
            Value(a) != k ==>
              (Between(a, PowerOffset(id, exp, 8 * |id|), b) <==> RingMath.Between(Value(a), k, Value(b)))
  {
    var t := OffsetValue(id, exp);
    Pow256IsPow2(|id|);
    ToBytesValue(t);
    ToBytesWidth(t, |id| + 1);
    KeyComparesAsKeyOf(a, b, t);
  }

  lemma KeyComparesAsKeyOf(a: Bytes, b: Bytes, t: nat)
    requires |a| == |b| > 0 && |ToBytes(t)| <= |a|
    ensures var k := RingMath.KeyOf(Pow256(|a|), t);
            && (BetweenRightIncl(a, b, ToBytes(t)) <==> RingMath.BetweenRightIncl(Value(a), Value(b), k))
            && (Value(a) != k ==> (Between(a, ToBytes(t), b) <==> RingMath.Between(Value(a), k, Value(b))))
  {
    var k := ToBytes(t);
    CompareIsNumeric(a, b);
    FlipCompare(a, k);
    FlipCompare(b, k);
    ToBytesValue(t);
    if |k| == |a| {
      ToBytesWidth(t, |a|);
      CompareIsNumeric(a, k);
      CompareIsNumeric(b, k);
    } else {
      CompareWithShortKey(a, k);
      CompareWithShortKey(b, k);
      PaddedKey(t, |a|, |a| - |k|);
    }
  }

  lemma {:induction false} FlipCompare(a: Bytes, b: Bytes)
    ensures Compare(a, b) == -Compare(b, a)
  {
    if a != [] && b != [] && a[0] == b[0] {
      FlipCompare(a[1..], b[1..]);
    }
  }

  lemma ByteMoves(t: nat, d: nat)
    requires d > 0
    ensures t * Pow256(d) == (256 * t) * Pow256(d - 1)
  {
    assert Pow256(d) == 256 * Pow256(d - 1);
  }

  /** A number of fewer than w bytes gets one more zero byte at its end. */
  lemma PadsOnce(t: nat, w: nat)
    requires t > 0 && |ToBytes(t)| < w
    ensures |ToBytes(256 * t)| == |ToBytes(t)| + 1
    ensures RingMath.KeyOf(Pow256(w), t) == RingMath.KeyOf(Pow256(w), 256 * t)
  {
    assert ToBytes(256 * t) == ToBytes(t) + [0];
    ToBytesWidth(t, w);
    assert Pow256(w) == 256 * Pow256(w - 1);
    hide ToBytes, Pow256;
  }

  /** A number of w bytes stays as it is. */
  lemma PadsNoFurther(t: nat, w: nat)
    requires w > 0 && |ToBytes(t)| == w
    ensures RingMath.KeyOf(Pow256(w), t) == t
  {
    ToBytesWidth(t, w);
    assert Pow256(w) == 256 * Pow256(w - 1);
    hide ToBytes, Pow256;
  }

  /** Appending d zero bytes brings a number of w - d bytes to full width. */
  lemma {:induction false} PaddedKey(t: nat, w: nat, d: nat)
    requires 0 < d <= w && |ToBytes(t)| == w - d
    ensures RingMath.KeyOf(Pow256(w), t) == t * Pow256(d)
    decreases d
  {
    if t > 0 {
      PadsOnce(t, w);
      ByteMoves(t, d);
      if d == 1 {
        PadsNoFurther(256 * t, w);
        assert Pow256(0) == 1;
      } else {
        hide RingMath.KeyOf, ToBytes, Pow256;
        PaddedKey(256 * t, w, d - 1);
      }
    }
  }

  lemma {:induction false} Pow256Monotone(i: nat, j: nat)
    requires i <= j
    ensures Pow256(i) <= Pow256(j)
    decreases j
  {
    if i < j {
      Pow256Monotone(i, j - 1);
    }
  }

  /** A concrete miss: on two-byte ids, 0xffff + 2 is the key "\x01", which compares as 256. */
  lemma StrippedOffsetExample()
    ensures PowerOffset([255, 255], 1, 16) == [1]
    ensures BetweenRightIncl([0, 1], [1, 0], PowerOffset([255, 255], 1, 16))
    ensures !RingMath.BetweenRightIncl(Value([0, 1]), Value([1, 0]), OffsetValue([255, 255], 1))
  {
    assert RingMath.Pow2(1) == 2;
    Pow256IsPow2(2);
    assert Pow256(1) == 256 * Pow256(0) && Pow256(2) == 65536;
    assert Value([255]) == 255 by { assert [255 as byte][1..] == []; }
    assert [255 as byte, 255][1..] == [255];
    assert Value([255, 255]) == 65535;
    assert ToBytes(1) == [1];
    assert [0 as byte, 1][1..] == [1] && [1 as byte, 0][1..] == [0];
    assert [0 as byte][1..] == [] && [1 as byte][1..] == [];
    assert Value([1]) == 1 && Value([0]) == 0;
  }
}
