/** 16-bit wrapping sequence numbers (src/lib.rs) and their relation to the unbounded
    packet numbers they stand for. */
module Sequence {

  const HALF := 32768

  type u16 = x: int | 0 <= x < 65536

  /** The source's `wrapping_add` and `wrapping_sub` reduce their exact result with this. */
  function Wrap(x: int): u16 {
    x % 65536
  }

  predicate GreaterThan(s1: u16, s2: u16) {
    (s1 > s2 && s1 - s2 <= 32768) || (s1 < s2 && s2 - s1 > 32768)
  }

  predicate LessThan(s1: u16, s2: u16) {
    GreaterThan(s2, s1)
  }

  /** How many steps forward lead from `s2` to `s1`. */
  function Forward(s1: u16, s2: u16): u16 {
    Wrap(s1 - s2)
  }

  /** The integer congruent to `s` that lies nearest to `high`: in [high - 32768, high + 32767]. */
  function Unwrap(high: int, s: u16): (k: int)
    ensures high - 32768 <= k < high + 32768
    ensures Wrap(k) == s
    ensures forall j: int :: high - 32768 <= j < high + 32768 && Wrap(j) == s ==> j == k
  {
    high - 32768 + (s - high + 32768) % 65536
  }

  /** "Newer" is a forward distance below one half of the number space; the distance of exactly one
      half is decided by plain magnitude. */
  lemma GreaterThanIsForwardDistance(s1: u16, s2: u16)
    ensures GreaterThan(s1, s2) <==> 0 < Forward(s1, s2) < HALF || (Forward(s1, s2) == HALF && s1 > s2)
  {
    assert Forward(s1, s2) == if s1 >= s2 then s1 - s2 else s1 - s2 + 65536;
  }

  /** Of three cases exactly one holds, ties at distance 32768 included. */
  lemma ExactlyOneOrder(s1: u16, s2: u16)
    ensures GreaterThan(s1, s2) || LessThan(s1, s2) || s1 == s2
    ensures !(GreaterThan(s1, s2) && LessThan(s1, s2))
    ensures s1 == s2 ==> !GreaterThan(s1, s2) && !LessThan(s1, s2)
  {
  }

  /** Exactly when two steps of "newer" compose. */
  lemma TransitiveExactlyWithinHalf(a: u16, b: u16, c: u16)
    requires GreaterThan(a, b) && GreaterThan(b, c)
    ensures GreaterThan(a, c) <==>
            Forward(a, b) + Forward(b, c) < HALF || (Forward(a, b) + Forward(b, c) == HALF && a > c)
  {
    GreaterThanIsForwardDistance(a, b);
    GreaterThanIsForwardDistance(b, c);
    GreaterThanIsForwardDistance(a, c);
    assert Forward(a, c) == (Forward(a, b) + Forward(b, c)) % 65536;
  }

  /** On packet numbers less than half the number space apart the 16-bit comparison is the integer one,
      at the distance of exactly one half it is not: the larger remainder wins. */
  lemma ComparesPacketNumbers(a: int, b: int)
    requires -HALF <= a - b <= HALF
    ensures -HALF < a - b < HALF ==> (GreaterThan(Wrap(a), Wrap(b)) <==> a > b)
    ensures a - b == HALF || b - a == HALF ==> (GreaterThan(Wrap(a), Wrap(b)) <==> Wrap(a) > Wrap(b))
  {
    GreaterThanIsForwardDistance(Wrap(a), Wrap(b));
    assert Forward(Wrap(a), Wrap(b)) == (a - b) % 65536;
  }

  lemma WrapOfDifference(a: int, b: int)
    ensures Wrap(Wrap(a) - Wrap(b)) == Wrap(a - b)
  {
  }

  lemma WrapOfSum(a: int, c: int)
    ensures Wrap(Wrap(a) + c) == Wrap(a + c)
  {
  }

  lemma WrapOfSmall(a: int)
    requires 0 <= a < 65536
    ensures Wrap(a) == a
  {
  }

  /** Numbers less than the whole space apart are equal when their remainders are. */
  lemma CloseNumbersWrapApart(a: int, b: int)
    requires -65536 < a - b < 65536 && Wrap(a) == Wrap(b)
    ensures a == b
  {
  }
}
