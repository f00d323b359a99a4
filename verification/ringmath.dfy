/**
 * The identifier circle, seen through the numbers that fixed-width ids denote.
 * `m` is the number of positions on the circle (2^hashBits).
 */
module RingMath {

  function Pow2(n: nat): (r: nat)
    ensures r > 0
  {
    if n == 0 then 1 else 2 * Pow2(n - 1)
  }

  lemma {:induction false} Pow2Monotone(i: nat, j: nat)
    requires i <= j
    ensures Pow2(i) <= Pow2(j)
    decreases j
  {
    if i < j {
      Pow2Monotone(i, j - 1);
    }
  }

  lemma {:induction false} Pow2Strict(i: nat, j: nat)
    requires i < j
    ensures Pow2(i) < Pow2(j)
  {
    Pow2Monotone(i, j - 1);
  }

  /** Positions on the circle of size m. */
  predicate OnCircle(m: int, x: int) {
    0 <= x < m
  }

  /** The forward (clockwise) distance from a to b. */
  function Dist(m: int, a: int, b: int): int {
    if a <= b then b - a else b - a + m
  }

  /** The forward distance is the difference modulo the size of the circle. */
  lemma DistIsMod(m: int, a: int, b: int)
    requires OnCircle(m, a) && OnCircle(m, b)
    ensures Dist(m, a, b) == (b - a) % m
  {
  }

  /** `between`: k lies strictly inside the clockwise arc from a to b. */
  predicate Between(a: int, b: int, k: int) {
    if a > b then a < k || b > k else a < k && b > k
  }

  /** `betweenRightIncl`: as `Between`, with the right end included. */
  predicate BetweenRightIncl(a: int, b: int, k: int) {
    if a > b then a < k || b >= k else a < k && b >= k
  }

  /** The interval tests are comparisons of clockwise distances; both are empty when the ends coincide. */
  lemma BetweenIsDistance(m: int, a: int, b: int, k: int)
    requires OnCircle(m, a) && OnCircle(m, b) && OnCircle(m, k)
    ensures Between(a, b, k) <==> 0 < Dist(m, a, k) < Dist(m, a, b)
    ensures BetweenRightIncl(a, b, k) <==> 0 < Dist(m, a, k) <= Dist(m, a, b)
  {
  }

  /** The position 2^i past v, (v + 2^i) mod m on the circle of size m. */
  function Offset(m: int, v: int, i: nat): int {
    if v + Pow2(i) < m then v + Pow2(i) else v + Pow2(i) - m
  }

  /**
   * The position that a number compares as once its leading zero bytes are dropped:
   * bytes.Compare pads it at the end instead, up to the width of the ids.
   */
  function KeyOf(m: int, t: int): int
    decreases m - t
  {
    if t <= 0 || 256 * t >= m then t else KeyOf(m, 256 * t)
  }

  /** No leading zero byte: the number compares as itself. */
  predicate FullWidth(m: int, t: int) {
    t <= 0 || 256 * t >= m
  }

  lemma {:induction false} KeyOfOnCircle(m: int, t: int)
    requires OnCircle(m, t)
    ensures OnCircle(m, KeyOf(m, t))
    decreases m - t
  {
    if !(t <= 0 || 256 * t >= m) {
      KeyOfOnCircle(m, 256 * t);
    }
  }

  /** A ring as a sorted list of at least two distinct positions. */
  ghost predicate SortedRing(m: int, ring: seq<int>) {
    && |ring| >= 2
    && (forall i :: 0 <= i < |ring| ==> OnCircle(m, ring[i]))
    && (forall i, j :: 0 <= i < j < |ring| ==> ring[i] < ring[j])
  }

  /** The i-th entry of the ring, counting on past the end from the start. */
  function At(ring: seq<int>, i: int): int
    requires 0 <= i < 2 * |ring|
  {
    if i < |ring| then ring[i] else ring[i - |ring|]
  }

  /** The reference for a lookup: scan the sorted ring for the first position at or after the key. */
  function OwnerIndex(ring: seq<int>, key: int): (i: nat)
    requires |ring| > 0
    ensures i < |ring|
  {
    var i := ScanFrom(ring, key, 0);
    if i == |ring| then 0 else i
  }

  function ScanFrom(ring: seq<int>, key: int, i: nat): (r: nat)
    requires i <= |ring|
    ensures i <= r <= |ring|
    ensures forall j :: i <= j < r ==> ring[j] < key
    ensures r < |ring| ==> ring[r] >= key
    decreases |ring| - i
  {
    if i == |ring| || ring[i] >= key then i else ScanFrom(ring, key, i + 1)
  }

  /** The scan finds the node closest clockwise from the key. */
  lemma OwnerIsNearestClockwise(m: int, ring: seq<int>, key: int, j: nat)
    requires SortedRing(m, ring) && OnCircle(m, key) && j < |ring|
    ensures Dist(m, key, ring[OwnerIndex(ring, key)]) <= Dist(m, key, ring[j])
    ensures Dist(m, key, ring[OwnerIndex(ring, key)]) == Dist(m, key, ring[j]) ==> j == OwnerIndex(ring, key)
  {
  }

  /** The node whose arc contains the key precedes the owner, and only that one does. */
  lemma OwnerIsArcEnd(m: int, ring: seq<int>, key: int, i: nat)
    requires SortedRing(m, ring) && OnCircle(m, key) && i < |ring|
    requires key != ring[i]
    ensures BetweenRightIncl(ring[i], At(ring, i + 1), key) <==> At(ring, i + 1) == ring[OwnerIndex(ring, key)]
  {
  }
}
