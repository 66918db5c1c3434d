/** Slot arithmetic of the robinhood engine: 64-bit hashes with a tombstone bit,
    probe distances, and the ring of slots 1 .. capacity - 1. */
module RobinHoodRing {

  const TWO_63: nat := 0x8000_0000_0000_0000
  const TWO_64: nat := 0x1_0000_0000_0000_0000

  type Word = x: nat | x < TWO_64

  predicate PowerOfTwo(c: nat) {
    c == 1 || (c > 1 && c % 2 == 0 && PowerOfTwo(c / 2))
  }

  /** x & (cap - 1) */
  function LowBits(x: nat, cap: nat): (r: nat)
    requires PowerOfTwo(cap)
    ensures r < cap && r <= x
  {
    if cap == 1 then 0 else 2 * LowBits(x / 2, cap / 2) + x % 2
  }

  /** A capacity is a power of two that leaves bit 63 free. */
  predicate CapOk(c: nat) {
    4 <= c <= TWO_63 && PowerOfTwo(c)
  }

  /** Masking is taking the remainder. */
  lemma {:induction false} LowBitsIs(x: nat, cap: nat, q: nat, r: nat)
    requires PowerOfTwo(cap) && x == q * cap + r && r < cap
    ensures LowBits(x, cap) == r
  {
    if cap > 1 {
      var h := cap / 2;
      assert q * cap == 2 * (q * h);
      LowBitsIs(x / 2, h, q, r / 2);
    }
  }

  /** A capacity divides every larger power of two. */
  lemma {:induction false} PowerDivides(c: nat, n: nat) returns (q: nat)
    requires PowerOfTwo(c) && PowerOfTwo(n) && c <= n
    ensures n == q * c
  {
    if c == 1 { return n; }
    q := PowerDivides(c / 2, n / 2);
    assert n == 2 * (q * (c / 2)) == q * c;
  }

  /** entry_is_deleted: bit 63 is set. */
  predicate Deleted(hash: Word) {
    hash >= TWO_63
  }

  predicate Empty(hash: Word) {
    hash == 0 || Deleted(hash)
  }

  /** The slot a hash asks for; a tombstone keeps that of the entry it replaced. */
  function Home(hash: Word): nat {
    if Deleted(hash) then hash - TWO_63 else hash
  }

  predicate Slot(cap: nat, p: int) {
    1 <= p < cap
  }

  function IncrementPos(cap: nat, pos: nat): nat
    requires PowerOfTwo(cap)
  {
    var p := LowBits(pos + 1, cap);
    if p == 0 then 1 else p
  }

  /** The next slot of the ring. */
  function NextSlot(cap: nat, pos: nat): nat {
    if pos + 1 == cap then 1 else pos + 1
  }

  lemma IncrementPosIs(cap: nat, pos: nat)
    requires Slot(cap, pos) && PowerOfTwo(cap)
    ensures IncrementPos(cap, pos) == NextSlot(cap, pos)
  {
    LowBitsIs(pos + 1, cap, if pos + 1 == cap then 1 else 0, if pos + 1 == cap then 0 else pos + 1);
  }

  /** probe_distance, in wrapping 64-bit arithmetic. */
  function ProbeDistance(cap: nat, hash: Word, slot: nat): nat
    requires PowerOfTwo(cap)
  {
    LowBits((slot + cap - hash) % TWO_64, cap)
  }

  /** Probes made on the way from slot `h` to slot `p`; slot 0 is not probed. */
  function Steps(cap: nat, h: int, p: int): int {
    if p >= h then p - h else p - h + cap - 1
  }

  /** Distance on the ring that counts slot 0 at the wrap. */
  function RingDist(cap: nat, h: int, p: int): int {
    if p >= h then p - h else p - h + cap
  }

  lemma {:induction false} PowerProduct(a: nat, b: nat)
    requires PowerOfTwo(a) && PowerOfTwo(b)
    ensures PowerOfTwo(a * b)
  {
    if a > 1 {
      PowerProduct(a / 2, b);
      assert a * b == 2 * (a / 2 * b);
    }
  }

  lemma PowerOfTwo63()
    ensures PowerOfTwo(TWO_63)
  {
    assert PowerOfTwo(2) && PowerOfTwo(4) && PowerOfTwo(8);
    PowerProduct(8, 8);
    PowerProduct(64, 2);
    PowerProduct(128, 64);
    PowerProduct(128, 128);
    PowerProduct(8192, 16384);
    PowerProduct(16384, 16384);
    PowerProduct(128, 268435456);
    PowerProduct(34359738368, 268435456);
  }

  lemma {:induction false} MulSign(n: int, cap: int)
    requires cap >= 0
    ensures n < 0 ==> n * cap <= -cap
    decreases -n
  {
    if n < -1 { MulSign(n + 1, cap); }
  }

  lemma Distribute(a: int, b: int, cap: nat)
    ensures (a + b) * cap == a * cap + b * cap
  {
  }

  lemma MaskedMultiple(cap: nat, y: nat, a: int, b: int, d: nat)
    requires PowerOfTwo(cap) && d < cap && y == a * cap + d + b * cap
    ensures LowBits(y, cap) == d
  {
    hide PowerOfTwo, LowBits;
    Distribute(a, b, cap);
    MulSign(a + b, cap);
    LowBitsIs(y, cap, a + b, d);
  }

  /** The distance, wrapped at 64 bits and masked, ignores the tombstone bit and is
      the ring distance from home. */
  lemma ProbeDistanceIs(cap: nat, hash: Word, slot: nat)
    requires CapOk(cap) && Slot(cap, Home(hash)) && Slot(cap, slot)
    ensures ProbeDistance(cap, hash, slot) == RingDist(cap, Home(hash), slot)
  {
    hide PowerOfTwo, LowBits;
    var d := RingDist(cap, Home(hash), slot);
    var laps := if slot >= Home(hash) then 1 else 0;
    PowerOfTwo63();
    var q := PowerDivides(cap, TWO_63);
    var y := (slot + cap - hash) % TWO_64;
    if !Deleted(hash) {
      MaskedMultiple(cap, y, laps, 0, d);
    } else if slot + cap - hash >= 0 {
      MaskedMultiple(cap, y, laps, -(q as int), d);
    } else {
      MaskedMultiple(cap, y, laps, q, d);
    }
  }

  /** hash: the mixed key cut to the capacity, never 0. `mix` is the bit mixer. */
  function Hash(mix: Word -> Word, cap: nat, key: Word): Word {
    var k := if PowerOfTwo(cap) then LowBits(mix(key), cap) else 0;
    if k == 0 then 1 else k
  }

  function HashFor(mix: Word -> Word, cap: nat): Word -> Word {
    key => Hash(mix, cap, key)
  }

  lemma HashInRange(mix: Word -> Word, cap: nat, key: Word)
    requires CapOk(cap)
    ensures Slot(cap, Hash(mix, cap, key)) && !Empty(Hash(mix, cap, key))
  {
  }

  /** The mask takes the remainder, and slot 1 stands in for slot 0. */
  lemma HashIs(mix: Word -> Word, cap: nat, key: Word)
    requires CapOk(cap)
    ensures Hash(mix, cap, key) == if mix(key) % cap == 0 then 1 else mix(key) % cap
  {
    hide PowerOfTwo, LowBits;
    LowBitsIs(mix(key), cap, mix(key) / cap, mix(key) % cap);
  }
}
