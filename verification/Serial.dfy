/** Packet sequence numbers: 32-bit serial arithmetic (section 3.2 of RFC 1982) and
    its relation to the unbounded numbers the rest of the model counts with. */
module Serial {

  const MODULUS: nat := 0x1_0000_0000
  const HALF: nat := 0x8000_0000

  newtype u32 = x: int | 0 <= x < 0x1_0000_0000

  /** The 32-bit field that carries the unbounded sequence number n. */
  function Wrap(n: nat): u32 {
    (n % MODULUS) as u32
  }

  /** x + n with the wrap-around of an unsigned 32-bit addition. */
  function Add32(x: u32, n: nat): u32 {
    ((x as int + n) % MODULUS) as u32
  }

  predicate SerialLess(s1: u32, s2: u32) {
    || (s1 < s2 && s2 as int - s1 as int < HALF)
    || (s1 > s2 && s1 as int - s2 as int > HALF)
  }

  predicate SerialGreater(s1: u32, s2: u32) {
    || (s1 < s2 && s2 as int - s1 as int > HALF)
    || (s1 > s2 && s1 as int - s2 as int < HALF)
  }

  /** Two sequence numbers less than half the number space apart. */
  predicate Near(a: nat, b: nat) {
    a < b + HALF && b < a + HALF
  }

  /** On every pair of unbounded numbers, the two comparisons are exactly the circular
      distances of RFC 1982; at distance 2^31 both are false. */
  lemma SerialIsCircularDistance(a: nat, b: nat)
    ensures SerialLess(Wrap(a), Wrap(b)) <==> 0 < (b - a) % MODULUS < HALF
    ensures SerialGreater(Wrap(a), Wrap(b)) <==> 0 < (a - b) % MODULUS < HALF
    ensures (a - b) % MODULUS == HALF ==> !SerialLess(Wrap(a), Wrap(b)) && !SerialGreater(Wrap(a), Wrap(b))
  {
    var x, y := a % MODULUS, b % MODULUS;
    var i, j := a / MODULUS, b / MODULUS;
    assert a == i * MODULUS + x && b == j * MODULUS + y;
    ModUnique(b - a, j - i - (if x <= y then 0 else 1), if x <= y then y - x else y - x + MODULUS);
    ModUnique(a - b, i - j - (if y <= x then 0 else 1), if y <= x then x - y else x - y + MODULUS);
  }

  lemma ModUnique(n: int, q: int, r: int)
    requires n == q * MODULUS + r && 0 <= r < MODULUS
    ensures n % MODULUS == r
  {
  }

  /** Within half the number space the 32-bit comparisons are the unbounded ones. */
  lemma SerialAgrees(a: nat, b: nat)
    requires Near(a, b)
    ensures SerialLess(Wrap(a), Wrap(b)) <==> a < b
    ensures SerialGreater(Wrap(a), Wrap(b)) <==> a > b
    ensures Wrap(a) == Wrap(b) <==> a == b
  {
  }

  /** The read-completion test and the heap of last-segment numbers compare with the plain
      `<`. On nearby numbers that is the right order exactly when neither, or both, have
      wrapped: both lie in the same 2^32 block. */
  lemma PlainLessAgreesIffSameEpoch(a: nat, b: nat)
    requires Near(a, b) && a != b
    ensures (Wrap(a) < Wrap(b) <==> a < b) <==> a / MODULUS == b / MODULUS
  {
  }

  /** An input on which it is wrong: the last segment of a READ response is number 2^32 + 5 and
      everything below 2^32 - 3 has arrived. The number is not below the acknowledgement, but
      the test says it is. */
  lemma PlainLessFailsAcrossWrap()
    ensures var last, ack := MODULUS + 5, MODULUS - 3; Near(last, ack) && !(last < ack) && Wrap(last) < Wrap(ack)
  {
  }

  lemma WrapAdd(n: nat, k: nat)
    ensures Add32(Wrap(n), k) == Wrap(n + k)
  {
  }
}
