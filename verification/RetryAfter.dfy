/** The Retry-After header of an error response, in whole seconds (section 10.2.3 of RFC 9110). */
module RetryAfter {

  /** Python's `int` on a float: towards zero. */
  function Truncate(x: real): int {
    if x >= 0.0 then x.Floor else -((-x).Floor)
  }

  function Max(a: int, b: int): int { if a > b then a else b }

  function HeaderValue(delay: real): int {
    Max(1, Truncate(delay + 0.999))
  }

  function Ceiling(x: real): int { -((-x).Floor) }

  /** The header is at least one second, less than a millisecond short of the delay, and less than
      a second beyond it. */
  lemma HeaderIsCloseToDelay(delay: real)
    ensures HeaderValue(delay) >= 1
    ensures HeaderValue(delay) as real > delay - 0.001
    ensures HeaderValue(delay) == 1 || HeaderValue(delay) as real <= delay + 0.999
  {
  }

  /** It rounds up, as its comment says, exactly unless the delay exceeds a whole number of seconds,
      one or more, by less than a millisecond; then it rounds down. */
  lemma RoundsUpIff(delay: real)
    ensures HeaderValue(delay) == Max(1, Ceiling(delay)) <==>
            !(delay > 1.0 && 0.0 < delay - delay.Floor as real < 0.001)
  {
    var n := delay.Floor;
    var fraction := delay - n as real;
    if fraction == 0.0 {
      assert Ceiling(delay) == n;
    } else {
      assert Ceiling(delay) == n + 1 by {
        assert -(n as real) - 1.0 < -delay < -(n as real);
        assert (-delay).Floor == -n - 1;
      }
    }
    if delay + 0.999 >= 0.0 {
      assert (delay + 0.999).Floor == if fraction < 0.001 then n else n + 1;
    }
  }

  lemma RoundsDown()
    ensures HeaderValue(1.0005) == 1 && Ceiling(1.0005) == 2
  {
    RoundsUpIff(1.0005);
  }
}
