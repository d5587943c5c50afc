/** Record types and times of the DNS cache. */
module DnsBasics {

  const T_A := 1
  const T_CNAME := 5
  const T_AAAA := 28
  const T_SRV := 33
  const T_NAPTR := 35

  const TICKS := 0x1_0000_0000

  /** A 32-bit tick counter. */
  type Ticks = n: nat | n < TICKS

  /** Cut to 32 bits. */
  function Cut(n: nat): Ticks {
    n % TICKS
  }

  /** (s_ticks_t)(now - expire) >= 0 on ticks that wrap around. */
  predicate ExpiredAt(expire: Ticks, now: Ticks) {
    if now >= expire then now - expire < TICKS / 2 else expire - now > TICKS / 2
  }

  lemma ExpiredIsSignedDifference(expire: Ticks, now: Ticks)
    ensures ExpiredAt(expire, now) <==> (now - expire) % TICKS < TICKS / 2
  {
  }

  /** What at `now` was given `life` ticks to live has expired after `d` ticks. */
  predicate ExpiredAfter(now: Ticks, life: nat, d: nat) {
    ExpiredAt(Cut(now + life), Cut(now + d))
  }

  /** It has not before its time and has for half a turn of the counter from then on; a life
      of more than half a turn is over at once, and begins again later. */
  lemma ExpiredWhen(now: Ticks, life: nat, d: nat)
    ensures life <= d < life + TICKS / 2 ==> ExpiredAfter(now, life, d)
    ensures d < life <= d + TICKS / 2 ==> !ExpiredAfter(now, life, d)
    ensures d + TICKS / 2 < life <= d + TICKS ==> ExpiredAfter(now, life, d)
  {
    ExpiredIsSignedDifference(Cut(now + life), Cut(now + d));
    CutDifference(now + d, now + life);
    if d >= life {
      Below(d - life, 0);
    } else if life <= d + TICKS {
      Below(d - life, 1);
    }
  }

  lemma CutDifference(a: nat, b: nat)
    ensures (Cut(a) - Cut(b)) % TICKS == (a - b) % TICKS
  {
    var x, y := a / TICKS, b / TICKS;
    assert a == x * TICKS + Cut(a) && b == y * TICKS + Cut(b);
    Multiple(a - b, y - x);
  }

  lemma Multiple(n: int, k: int)
    ensures (n + k * TICKS) % TICKS == n % TICKS
  {
  }

  lemma Below(n: int, k: nat)
    ensures 0 <= n + k * TICKS < TICKS ==> n % TICKS == n + k * TICKS
  {
    Multiple(n, k);
  }

  /** Exactly when something stays unexpired for all of its life: when that is at most half
      a turn of the counter. */
  lemma LivesItsLifeIff(now: Ticks, life: nat)
    ensures (forall d: nat :: d < life ==> !ExpiredAfter(now, life, d)) <==> life <= TICKS / 2
  {
    if life <= TICKS / 2 {
      forall d: nat | d < life ensures !ExpiredAfter(now, life, d) { ExpiredWhen(now, life, d); }
    } else {
      ExpiredWhen(now, life, life - TICKS / 2 - 1);
      assert ExpiredAfter(now, life, life - TICKS / 2 - 1);
    }
  }
}
