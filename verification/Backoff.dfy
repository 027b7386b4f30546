/** The delays between attempts to reconnect. */
module Backoff {

  const TWO64: nat := 0x1_0000_0000_0000_0000

  type ulong = n: nat | n < TWO64

  datatype Algorithm =
    Default | DecorrelatedJitter | FullJitter | EqualJitter | Exponential | Uniform | Constant

  function Min(a: ulong, b: ulong): ulong {
    if a < b then a else b
  }

  function Pow(b: nat, n: nat): nat {
    if n == 0 then 1 else b * Pow(b, n - 1)
  }

  /** Unsigned multiplication wraps around. */
  function Times(a: ulong, b: nat): ulong {
    a * b % TWO64
  }

  /** The exponential term, before any jitter. */
  function Term(base: ulong, cap: ulong, retry: nat): ulong {
    Min(cap, Times(base, Pow(2, if retry < 10 then retry else 10)))
  }

  predicate Between(a: nat, b: nat, r: nat) {
    if b < a then b <= r <= a else a <= r <= b
  }

  /** random_range: the bounds may come in either order. Every number between them is the result of
      some draw. */
  function RandomRange(min: ulong, max: ulong, draw: nat): (r: ulong)
    ensures Between(min, max, r)
    ensures Between(min, max, draw) ==> r == draw
  {
    if Between(min, max, draw) then draw else min
  }

  datatype Policy = Policy(algorithm: Algorithm, base: ulong, cap: ulong)

  function DefaultBackoff(p: Policy, retry: nat, draw: nat): ulong {
    Min(p.cap, if retry > 0 then p.base else RandomRange(0, p.base, draw))
  }

  function UniformBackoff(p: Policy, draw: nat): ulong {
    Min(p.cap, RandomRange(0, p.base, draw))
  }

  function FullJitterBackoff(p: Policy, retry: nat, draw: nat): ulong {
    RandomRange(0, Term(p.base, p.cap, retry), draw)
  }

  /** Equal jitter is at least half of the capped term. */
  function EqualJitterBackoff(p: Policy, retry: nat, draw: nat): (delay: ulong)
    ensures Term(p.base, p.cap, retry) / 2 <= delay <= Term(p.base, p.cap, retry)
  {
    var temp := Term(p.base, p.cap, retry);
    temp / 2 + RandomRange(0, temp, draw) / 2
  }

  /** The next value of decorrelated jitter. */
  function Decorrelated(p: Policy, previous: ulong, draw: nat): ulong {
    RandomRange(p.base, Times(previous, 3), draw)
  }

  /** What the backoff remembers after a delay. */
  function Remember(p: Policy, previous: ulong, draw: nat): ulong {
    if p.algorithm.DecorrelatedJitter? then Decorrelated(p, previous, draw) else previous
  }

  function Delay(p: Policy, previous: ulong, retry: nat, draw: nat): ulong {
    match p.algorithm
    case Default => DefaultBackoff(p, retry, draw)
    case DecorrelatedJitter => Min(p.cap, Decorrelated(p, previous, draw))
    case FullJitter => FullJitterBackoff(p, retry, draw)
    case EqualJitter => EqualJitterBackoff(p, retry, draw)
    case Exponential => Term(p.base, p.cap, retry)
    case Uniform => UniformBackoff(p, draw)
    case Constant => Min(p.cap, p.base)
  }

  /** What each algorithm promises about a delay. */
  predicate Allowed(p: Policy, previous: ulong, retry: nat, delay: nat) {
    match p.algorithm
    case Default => if retry > 0 then delay == Min(p.cap, p.base) else delay <= Min(p.cap, p.base)
    case DecorrelatedJitter => exists r: ulong :: Between(p.base, Times(previous, 3), r) && delay == Min(p.cap, r)
    case FullJitter => delay <= Term(p.base, p.cap, retry)
    case EqualJitter => Term(p.base, p.cap, retry) / 2 <= delay <= Term(p.base, p.cap, retry)
    case Exponential => delay == Term(p.base, p.cap, retry)
    case Uniform => delay <= Min(p.cap, p.base)
    case Constant => delay == Min(p.cap, p.base)
  }

  lemma TermCapped(base: ulong, cap: ulong, retry: nat)
    ensures Term(base, cap, retry) <= cap
  {
  }

  lemma TermVanishes(base: ulong, cap: ulong, retry: nat)
    ensures base == 0 || cap == 0 ==> Term(base, cap, retry) == 0
    ensures cap <= 1 || (base <= 1 && retry == 0) ==> Term(base, cap, retry) <= 1
  {
    assert Pow(2, 0) == 1;
  }

  lemma FirstTerms(base: ulong, cap: ulong)
    ensures Term(base, cap, 0) == Min(cap, base) && Term(1, cap, 1) == Min(cap, 2)
  {
    assert Pow(2, 0) == 1 && Pow(2, 1) == 2;
  }

  /** No delay exceeds the cap, whatever is drawn. */
  lemma DelayAllowed(p: Policy, previous: ulong, retry: nat, draw: nat)
    ensures Allowed(p, previous, retry, Delay(p, previous, retry, draw))
    ensures Delay(p, previous, retry, draw) <= p.cap
  {
    hide Times, Pow, Term;
    TermCapped(p.base, p.cap, retry);
    assert Between(p.base, Times(previous, 3), Decorrelated(p, previous, draw));
  }

  /** What decorrelated jitter remembers grows at most threefold with each draw since the last
      reset, with or without a wrap-around. */
  ghost predicate Tame(base: ulong, previous: ulong, draws: nat) {
    if draws == 0 then previous == 0 else previous <= base * Pow(3, draws - 1)
  }

  class RedisBackoff {
    const policy: Policy
    var previous: ulong
    ghost var draws: nat             // decorrelated draws since the last reset

    /** redis_initialize_backoff. */
    constructor Initialize(retryInterval: ulong)
      ensures policy == Policy(Default, retryInterval, retryInterval) && Valid() && draws == 0
    {
      policy, previous, draws := Policy(Default, retryInterval, retryInterval), 0, 0;
    }

    constructor (policy: Policy)
      ensures this.policy == policy && Valid() && previous == 0 && draws == 0
    {
      this.policy, previous, draws := policy, 0, 0;
    }

    ghost predicate Valid()
      reads this
    {
      Tame(policy.base, previous, draws)
    }

    /** redis_backoff_reset. */
    method Reset()
      modifies `previous, `draws
      ensures Valid() && previous == 0 && draws == 0
    {
      previous, draws := 0, 0;
    }

    /** redis_backoff_compute. */
    method Compute(retry: nat, draw: nat) returns (delay: ulong)
      requires Valid()
      modifies `previous, `draws
      ensures Valid() && draws == old(draws) + if policy.algorithm.DecorrelatedJitter? then 1 else 0
      ensures delay == Delay(policy, old(previous), retry, draw) && delay <= policy.cap
      ensures Allowed(policy, old(previous), retry, delay)
      ensures previous == Remember(policy, old(previous), draw)
    {
      hide Times, Term, Pow, Tame, Allowed;
      DelayAllowed(policy, previous, retry, draw);
      delay := Delay(policy, previous, retry, draw);
      if policy.algorithm.DecorrelatedJitter? {
        Threefold(policy.base, previous, draws, draw);
        previous, draws := Decorrelated(policy, previous, draw), draws + 1;
      }
    }
  }

  /** One draw keeps the bound. */
  lemma Threefold(base: ulong, previous: ulong, draws: nat, draw: nat)
    requires Tame(base, previous, draws)
    ensures Tame(base, RandomRange(base, Times(previous, 3), draw), draws + 1)
  {
    PowPositive(3, draws);
    TimesGrows(base, 1, Pow(3, draws));
    WrapsDown(previous, 3);
    if draws > 0 {
      Tripled(base, previous, Pow(3, draws - 1));
    }
  }

  lemma WrapsDown(a: ulong, b: nat)
    ensures Times(a, b) <= a * b
  {
  }

  lemma Tripled(base: nat, previous: nat, power: nat)
    requires previous <= base * power
    ensures previous * 3 <= base * (3 * power)
  {
  }

  lemma {:induction false} PowPositive(b: nat, n: nat)
    requires b > 0
    ensures Pow(b, n) > 0
  {
    if n > 0 {
      PowPositive(b, n - 1);
    }
  }

  lemma {:induction false} TwoGrows(m: nat, n: nat)
    requires m <= n
    ensures 0 < Pow(2, m) <= Pow(2, n)
    decreases n
  {
    if m < n {
      TwoGrows(m, n - 1);
    } else {
      PowPositive(2, m);
    }
  }

  lemma TimesGrows(a: nat, b: nat, c: nat)
    requires b <= c
    ensures a * b <= a * c
  {
  }

  lemma NoWrap(a: ulong, b: nat, c: nat)
    requires b <= c && a * c < TWO64
    ensures Times(a, b) == a * b
  {
    TimesGrows(a, b, c);
  }

  /** Exponential delays never shrink from one retry to the next if their largest term does not
      wrap around. */
  lemma {:induction false} ExponentialGrows(base: ulong, cap: ulong, i: nat, j: nat)
    requires i <= j && base * Pow(2, 10) < TWO64
    ensures Term(base, cap, i) <= Term(base, cap, j)
  {
    hide Pow, Times;
    var m, n := if i < 10 then i else 10, if j < 10 then j else 10;
    TwoGrows(m, n);
    TwoGrows(n, 10);
    var x, y, z := Pow(2, m), Pow(2, n), Pow(2, 10);
    NoWrap(base, x, z);
    NoWrap(base, y, z);
    TimesGrows(base, x, y);
  }
}
