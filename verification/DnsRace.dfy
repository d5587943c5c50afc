/** dns_cache_add looks at the memory in use before it takes the lock, and adds without
    looking again: how far several processes can go beyond the maximum together. */
module DnsRace {

  /** The memory in use, and the sizes of the entries that have passed the look and are still
      to be linked. */
  datatype Race = Race(mem: nat, passed: seq<nat>)

  /** What one of `n` processes does next, with entries of at most `cap` bytes. */
  datatype Move = Look(size: nat) | Link(i: nat) | Free(size: nat)

  predicate May(max: nat, n: nat, cap: nat, r: Race, m: Move) {
    match m
    case Look(s) => s <= cap && r.mem + s < max && |r.passed| < n
    case Link(i) => i < |r.passed|
    case Free(s) => s <= r.mem
  }

  function After(max: nat, n: nat, cap: nat, r: Race, m: Move): Race
    requires May(max, n, cap, r, m)
  {
    match m
    case Look(s) => Race(r.mem, r.passed + [s])
    case Link(i) => Race(r.mem + r.passed[i], r.passed[..i] + r.passed[i + 1..])
    case Free(s) => Race(r.mem - s, r.passed)
  }

  /** Where the moves lead; None when one of them is not allowed. */
  datatype Outcome = Refused | At(r: Race)

  function Run(max: nat, n: nat, cap: nat, r: Race, moves: seq<Move>): Outcome
    decreases |moves|
  {
    if moves == [] then At(r)
    else match Run(max, n, cap, r, moves[..|moves| - 1])
         case Refused => Refused
         case At(r') =>
           var m := moves[|moves| - 1];
           if May(max, n, cap, r', m) then At(After(max, n, cap, r', m)) else Refused
  }

  function Sum(s: seq<nat>): nat {
    if s == [] then 0 else s[0] + Sum(s[1..])
  }

  lemma {:induction false} SumConcat(a: seq<nat>, b: seq<nat>)
    ensures Sum(a + b) == Sum(a) + Sum(b)
  {
    if a == [] {
      assert a + b == b;
    } else {
      assert (a + b)[0] == a[0] && (a + b)[1..] == a[1..] + b;
      SumConcat(a[1..], b);
    }
  }

  lemma {:induction false} SumBound(s: seq<nat>, cap: nat)
    requires forall i :: 0 <= i < |s| ==> s[i] <= cap
    ensures Sum(s) <= |s| * cap
  {
    if s != [] {
      SumBound(s[1..], cap);
      assert |s| * cap == (|s| - 1) * cap + cap;
    }
  }

  /** Everything that is in use or has passed stays below this. */
  ghost predicate Bounded(max: nat, n: nat, cap: nat, r: Race) {
    |r.passed| <= n && (forall i :: 0 <= i < |r.passed| ==> r.passed[i] <= cap)
    && r.mem + Sum(r.passed) < max + (n - 1) * cap
  }

  lemma StepBounded(max: nat, n: nat, cap: nat, r: Race, m: Move)
    requires n > 0 && Bounded(max, n, cap, r) && May(max, n, cap, r, m)
    ensures Bounded(max, n, cap, After(max, n, cap, r, m))
  {
    match m
    case Look(s) =>
      SumSnoc(r.passed, s);
      SumOfOthers(r.passed, n, cap);
    case Link(i) => SumWithout(r.passed, i);
    case Free(s) =>
  }

  lemma SumSnoc(s: seq<nat>, x: nat)
    ensures Sum(s + [x]) == Sum(s) + x
  {
    SumConcat(s, [x]);
    assert [x][1..] == [] && Sum([x]) == x;
  }

  lemma SumWithout(s: seq<nat>, i: nat)
    requires i < |s|
    ensures Sum(s) == Sum(s[..i] + s[i + 1..]) + s[i]
  {
    var a, b := s[..i], s[i..];
    assert s == a + b && b[1..] == s[i + 1..];
    SumConcat(a, b);
    SumConcat(a, s[i + 1..]);
  }

  lemma SumOfOthers(s: seq<nat>, n: nat, cap: nat)
    requires |s| < n && forall i :: 0 <= i < |s| ==> s[i] <= cap
    ensures Sum(s) <= (n - 1) * cap
  {
    SumBound(s, cap);
    Product(|s|, n - 1, cap);
  }

  lemma Product(a: nat, b: nat, c: nat)
    requires a <= b
    ensures a * c <= b * c
  {
  }

  /** In every run of n processes that begins below the maximum, what is in use stays below
      the maximum and n - 1 entries of the largest size. */
  lemma {:induction false} EveryRunBounded(max: nat, n: nat, cap: nat, mem: nat, moves: seq<Move>)
    requires n > 0 && mem < max
    ensures match Run(max, n, cap, Race(mem, []), moves)
            case Refused => true
            case At(r) => Bounded(max, n, cap, r) && r.mem < max + (n - 1) * cap
    decreases |moves|
  {
    if moves == [] {
      assert (n - 1) * cap >= 0;
    } else {
      var init := moves[..|moves| - 1];
      EveryRunBounded(max, n, cap, mem, init);
      var o := Run(max, n, cap, Race(mem, []), init);
      if o.At? && May(max, n, cap, o.r, moves[|moves| - 1]) { StepBounded(max, n, cap, o.r, moves[|moves| - 1]); }
    }
  }

  function Repeat<T>(x: T, k: nat): (s: seq<T>)
    ensures |s| == k
  {
    seq(k, _ => x)
  }

  /** Some processes pass one after the other. */
  lemma {:induction false} AllPass(max: nat, n: nat, cap: nat, k: nat)
    requires cap < max && k <= n
    ensures Run(max, n, cap, Race(max - 1 - cap, []), Repeat(Look(cap), k)) == At(Race(max - 1 - cap, Repeat(cap, k)))
  {
    if k > 0 {
      AllPass(max, n, cap, k - 1);
      assert Repeat(Look(cap), k)[..k - 1] == Repeat(Look(cap), k - 1);
      assert Repeat(cap, k) == Repeat(cap, k - 1) + [cap];
    }
  }

  /** One move more. */
  lemma RunNext(max: nat, n: nat, cap: nat, r: Race, moves: seq<Move>, m: Move, was: Race)
    requires Run(max, n, cap, r, moves) == At(was) && May(max, n, cap, was, m)
    ensures Run(max, n, cap, r, moves + [m]) == At(After(max, n, cap, was, m))
  {
    assert (moves + [m])[..|moves|] == moves;
  }

  lemma FirstLinks(max: nat, n: nat, cap: nat, mem: nat, k: nat)
    requires k > 0
    ensures May(max, n, cap, Race(mem, Repeat(cap, k)), Link(0))
    ensures After(max, n, cap, Race(mem, Repeat(cap, k)), Link(0)) == Race(mem + cap, Repeat(cap, k - 1))
  {
    assert Repeat(cap, k)[..0] + Repeat(cap, k)[1..] == Repeat(cap, k - 1);
  }

  /** Some of those that have passed link their entries. */
  lemma {:induction false} AllLink(max: nat, n: nat, cap: nat, k: nat)
    requires cap < max && k <= n
    ensures Run(max, n, cap, Race(max - 1 - cap, []), Repeat(Look(cap), n) + Repeat(Link(0), k))
         == At(Race(max - 1 - cap + k * cap, Repeat(cap, n - k)))
  {
    if k == 0 {
      AllPass(max, n, cap, n);
      assert Repeat(Look(cap), n) + Repeat(Link(0), 0) == Repeat(Look(cap), n);
    } else {
      AllLink(max, n, cap, k - 1);
      var mem := max - 1 - cap + (k - 1) * cap;
      FirstLinks(max, n, cap, mem, n - k + 1);
      RunNext(max, n, cap, Race(max - 1 - cap, []), Repeat(Look(cap), n) + Repeat(Link(0), k - 1), Link(0),
              Race(mem, Repeat(cap, n - k + 1)));
      OneMore(n, cap, k);
    }
  }

  lemma OneMore(n: nat, cap: nat, k: nat)
    requires k > 0
    ensures Repeat(Look(cap), n) + Repeat(Link(0), k) == Repeat(Look(cap), n) + Repeat(Link(0), k - 1) + [Link(0)]
    ensures k * cap == (k - 1) * cap + cap
  {
  }

  /** And the bound is reached: n processes that all look at the same moment. */
  lemma BoundReached(max: nat, n: nat, cap: nat) returns (moves: seq<Move>)
    requires n > 0 && cap < max
    ensures Run(max, n, cap, Race(max - 1 - cap, []), moves) == At(Race(max - 1 + (n - 1) * cap, []))
  {
    moves := Repeat(Look(cap), n) + Repeat(Link(0), n);
    AllLink(max, n, cap, n);
    assert n * cap == (n - 1) * cap + cap;
  }
}
