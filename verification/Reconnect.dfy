/** The check before every write: a lost connection is replaced after a delay, and logging in on the
    new one writes again. */
module Reconnect {
  import opened Backoff

  /** db: a database other than 0 is selected. echo: streams come from the pool and are tried out
      with ECHO. */
  datatype Config = Config(policy: Policy, maxRetries: nat, password: bool, db: bool, echo: bool)

  /** What the network says, and what the generator of random numbers draws. */
  datatype Answer = Answer(ok: bool, draw: nat)

  /** env: the answers to come; after the last of them nothing fails any more. levels: how many
      times the retry loop has been entered. */
  datatype State = State(env: seq<Answer>, previous: ulong, draws: nat, slept: nat, attempts: nat, levels: nat)

  datatype Result = Result(ok: bool, state: State)

  function Ask(s: State): Result {
    if s.env == [] then Result(true, s) else Result(s.env[0].ok, s.(env := s.env[1..]))
  }

  function Draw(s: State): nat {
    if s.env == [] then 0 else s.env[0].draw
  }

  function Forget(s: State): State {
    s.(previous := 0, draws := 0)
  }

  function Enter(s: State): State {
    Forget(s).(levels := s.levels + 1)
  }

  /** usleep takes a 32-bit number of microseconds. */
  function Usleep(delay: nat): nat {
    delay % 0x1_0000_0000
  }

  /** The delay before attempt i. */
  function Wait(c: Config, s: State, i: nat): State {
    s.(env := Ask(s).state.env,
       previous := Remember(c.policy, s.previous, Draw(s)),
       draws := s.draws + if c.policy.algorithm.DecorrelatedJitter? then 1 else 0,
       slept := s.slept + Usleep(Delay(c.policy, s.previous, i, Draw(s))),
       attempts := s.attempts + 1)
  }

  // ---------------------------------------------------------------- what the calls compute

  /** redis_check_eof, outside a transaction. */
  function Check(c: Config, s: State, noRetry: bool): (r: Result)
    ensures |r.state.env| <= |s.env|
    decreases |s.env|, 0, 0
  {
    var a := Ask(s);
    if a.ok then a
    else if noRetry then Result(false, Forget(a.state))
    else Loop(c, Enter(a.state), 0)
  }

  /** Its retry loop, from attempt i on. */
  function Loop(c: Config, s: State, i: nat): (r: Result)
    requires i <= c.maxRetries
    ensures |r.state.env| <= |s.env|
    decreases |s.env|, 3, c.maxRetries - i
  {
    if i == c.maxRetries then Result(false, s)
    else
      var k := Connect(c, Wait(c, s, i));
      var a := if k.ok then Ask(k.state) else k;
      if a.ok then Login(c, a.state) else Loop(c, a.state, i + 1)
  }

  /** redis_sock_connect: a stream of the pool that answers an ECHO, or a new one. */
  function Connect(c: Config, s: State): (r: Result)
    ensures |r.state.env| <= |s.env|
    decreases |s.env|, 2, 0
  {
    if !c.echo then Ask(s)
    else
      var idle := Ask(s);
      var live := if idle.ok then Ask(idle.state) else idle;
      var echoed := if live.ok then Exchange(c, live.state) else live;
      if echoed.ok then echoed else Ask(echoed.state)
  }

  /** AUTH and SELECT on a new connection. */
  function Login(c: Config, s: State): (r: Result)
    ensures |r.state.env| <= |s.env|
    decreases |s.env|, 2, 0
  {
    var a := if c.password then Exchange(c, s) else Result(true, s);
    if a.ok && c.db then Exchange(c, a.state) else a
  }

  /** A command and its reply: redis_sock_write checks the connection again. */
  function Exchange(c: Config, s: State): (r: Result)
    ensures |r.state.env| <= |s.env|
    decreases |s.env|, 1, 0
  {
    var open := Check(c, s, false);
    var sent := if open.ok then Ask(open.state) else open;
    var there := if sent.ok then Check(c, sent.state, true) else sent;
    if there.ok then Ask(there.state) else there
  }

  // ---------------------------------------------------------------- what every call keeps

  /** Some attempt may be preceded by a sleep: half of a term of 1 is nothing, and neither is what is
      left of some delays of more than an hour. */
  predicate CanSleep(c: Config) {
    && c.maxRetries > 0 && c.policy.base > 0 && c.policy.cap > 0
    && match c.policy.algorithm
       case EqualJitter => c.policy.cap > 1 && (c.policy.base > 1 || c.maxRetries > 1)
       case Constant => Usleep(Min(c.policy.cap, c.policy.base)) > 0
       case Exponential => FirstSleep(c.policy, c.maxRetries) < c.maxRetries
       case _ => true
  }

  /** The first of n exponential delays that is slept, or n if there is none. */
  function FirstSleep(p: Policy, n: nat): (f: nat)
    ensures f <= n && (f < n ==> Usleep(Term(p.base, p.cap, f)) > 0)
    ensures forall i :: 0 <= i < f ==> Usleep(Term(p.base, p.cap, i)) == 0
  {
    if n == 0 then 0
    else
      var f := FirstSleep(p, n - 1);
      if f < n - 1 || Usleep(Term(p.base, p.cap, n - 1)) > 0 then f else n
  }

  /** Decorrelated jitter without a base remembers nothing. */
  predicate Quiet(c: Config, s: State) {
    c.policy.algorithm.DecorrelatedJitter? && c.policy.base == 0 ==> s.previous == 0
  }

  lemma NoDelay(c: Config, s: State, i: nat)
    requires !CanSleep(c) && i < c.maxRetries && Quiet(c, s)
    ensures Wait(c, s, i).slept == s.slept && Quiet(c, Wait(c, s, i))
  {
    hide Term;
    TermVanishes(c.policy.base, c.policy.cap, i);
  }

  /** From s to t: each attempt sleeps for at most the cap, each entry of the loop makes at most
      maxRetries attempts, apart from extra ones, and each entry costs a failing answer. Where no
      delay is possible nothing sleeps. */
  predicate Within(c: Config, s: State, t: State, extra: nat) {
    && s.slept <= t.slept <= s.slept + Product(t.attempts - s.attempts, c.policy.cap)
    && s.attempts <= t.attempts <= s.attempts + Product(t.levels - s.levels, c.maxRetries) + extra
    && s.levels <= t.levels && t.levels + |t.env| <= s.levels + |s.env|
    && (!CanSleep(c) && Quiet(c, s) ==> Quiet(c, t) && t.slept == s.slept)
  }

  function Product(a: int, b: nat): int {
    a * b
  }

  lemma WithinAdds(c: Config, s: State, t: State, u: State, m: nat, n: nat)
    requires Within(c, s, t, m) && Within(c, t, u, n)
    ensures Within(c, s, u, m + n)
  {
    hide CanSleep, Quiet;
    assert (u.attempts - s.attempts) * c.policy.cap
        == (t.attempts - s.attempts) * c.policy.cap + (u.attempts - t.attempts) * c.policy.cap;
    assert (u.levels - s.levels) * c.maxRetries
        == (t.levels - s.levels) * c.maxRetries + (u.levels - t.levels) * c.maxRetries;
  }

  lemma ProductSteps(a: int, b: nat)
    ensures Product(0, b) == 0 && Product(1, b) == b && Product(a + 1, b) == Product(a, b) + b
  {
  }

  lemma StepsWithin(c: Config, s: State)
    ensures Within(c, s, s, 0) && Within(c, s, Forget(s), 0) && Within(c, s, Ask(s).state, 0)
    ensures !Ask(s).ok ==> Within(c, s, Forget(Ask(s).state), 0)
  {
    hide CanSleep, Product;
    ProductSteps(0, c.policy.cap);
    ProductSteps(0, c.maxRetries);
  }

  lemma WaitWithin(c: Config, s: State, i: nat)
    requires i < c.maxRetries
    ensures Within(c, s, Wait(c, s, i), 1)
  {
    hide Remember, Delay, CanSleep, Product, Quiet;
    DelayAllowed(c.policy, s.previous, i, Draw(s));
    ProductSteps(0, c.policy.cap);
    ProductSteps(0, c.maxRetries);
    if !CanSleep(c) && Quiet(c, s) {
      NoDelay(c, s, i);
    }
  }

  /** A failing answer pays for the loop that it starts. */
  lemma EnterWithin(c: Config, s: State, t: State)
    requires !Ask(s).ok && Within(c, Enter(Ask(s).state), t, c.maxRetries)
    ensures Within(c, s, t, 0)
  {
    hide CanSleep, Product;
    ProductSteps(t.levels - s.levels - 1, c.maxRetries);
  }

  lemma {:induction false} CheckWithin(c: Config, s: State, noRetry: bool)
    ensures Within(c, s, Check(c, s, noRetry).state, 0)
    decreases |s.env|, 0, 0
  {
    hide Within, Loop;
    StepsWithin(c, s);
    if !Ask(s).ok && !noRetry {
      LoopWithin(c, Enter(Ask(s).state), 0);
      EnterWithin(c, s, Loop(c, Enter(Ask(s).state), 0).state);
    }
  }

  lemma {:induction false} LoopWithin(c: Config, s: State, i: nat)
    requires i <= c.maxRetries
    ensures Within(c, s, Loop(c, s, i).state, c.maxRetries - i)
    decreases |s.env|, 3, c.maxRetries - i
  {
    hide Within, Connect, Login;
    if i == c.maxRetries {
      StepsWithin(c, s);
    } else {
      var w := Wait(c, s, i);
      WaitWithin(c, s, i);
      ConnectWithin(c, w);
      var k := Connect(c, w);
      WithinAdds(c, s, w, k.state, 1, 0);
      var a := if k.ok then Ask(k.state) else k;
      StepsWithin(c, k.state);
      WithinAdds(c, s, k.state, a.state, 1, 0);
      if a.ok {
        LoginWithin(c, a.state);
        WithinAdds(c, s, a.state, Login(c, a.state).state, 1, 0);
        Looser(c, s, Login(c, a.state).state, 1, c.maxRetries - i);
      } else {
        LoopWithin(c, a.state, i + 1);
        WithinAdds(c, s, a.state, Loop(c, a.state, i + 1).state, 1, c.maxRetries - i - 1);
      }
    }
  }

  lemma Looser(c: Config, s: State, t: State, m: nat, n: nat)
    requires Within(c, s, t, m) && m <= n
    ensures Within(c, s, t, n)
  {
  }

  lemma {:induction false} ConnectWithin(c: Config, s: State)
    ensures Within(c, s, Connect(c, s).state, 0)
    decreases |s.env|, 2, 0
  {
    hide Within, Exchange;
    StepsWithin(c, s);
    if c.echo {
      var idle := Ask(s);
      var live := if idle.ok then Ask(idle.state) else idle;
      var echoed := if live.ok then Exchange(c, live.state) else live;
      StepsWithin(c, idle.state);
      WithinAdds(c, s, idle.state, live.state, 0, 0);
      if live.ok {
        ExchangeWithin(c, live.state);
        WithinAdds(c, s, live.state, echoed.state, 0, 0);
      }
      StepsWithin(c, echoed.state);
      WithinAdds(c, s, echoed.state, Connect(c, s).state, 0, 0);
    }
  }

  lemma {:induction false} LoginWithin(c: Config, s: State)
    ensures Within(c, s, Login(c, s).state, 0)
    decreases |s.env|, 2, 0
  {
    hide Within, Exchange;
    StepsWithin(c, s);
    var a := if c.password then Exchange(c, s) else Result(true, s);
    if c.password {
      ExchangeWithin(c, s);
    }
    if a.ok && c.db {
      ExchangeWithin(c, a.state);
      WithinAdds(c, s, a.state, Exchange(c, a.state).state, 0, 0);
    }
  }

  lemma {:induction false} ExchangeWithin(c: Config, s: State)
    ensures Within(c, s, Exchange(c, s).state, 0)
    decreases |s.env|, 1, 0
  {
    hide Within, Check;
    CheckWithin(c, s, false);
    var open := Check(c, s, false);
    var sent := if open.ok then Ask(open.state) else open;
    var there := if sent.ok then Check(c, sent.state, true) else sent;
    StepsWithin(c, open.state);
    WithinAdds(c, s, open.state, sent.state, 0, 0);
    if sent.ok {
      CheckWithin(c, sent.state, true);
      WithinAdds(c, s, sent.state, there.state, 0, 0);
    }
    StepsWithin(c, there.state);
    WithinAdds(c, s, there.state, Exchange(c, s).state, 0, 0);
  }

  // ---------------------------------------------------------------- when one loop is all

  /** Does anything that the retry loop does write, and so check the connection again? */
  predicate Reenters(c: Config) {
    c.password || c.db || c.echo
  }

  /** Without that, the loop is entered once, and what decorrelated jitter remembers stems from this
      call's own delays. */
  lemma {:induction false} LoopAlone(c: Config, s: State, i: nat)
    requires i <= c.maxRetries && !Reenters(c)
    ensures var t := Loop(c, s, i).state;
            && t.levels == s.levels
            && (c.policy.algorithm.DecorrelatedJitter? ==> t.draws - s.draws == t.attempts - s.attempts)
    decreases c.maxRetries - i
  {
    hide Remember, Delay;
    if i < c.maxRetries {
      var k := Connect(c, Wait(c, s, i));
      var a := if k.ok then Ask(k.state) else k;
      if !a.ok {
        LoopAlone(c, a.state, i + 1);
      }
    }
  }

  lemma CheckAlone(c: Config, s: State)
    requires !Reenters(c)
    ensures var t := Check(c, s, false).state;
            && t.levels <= s.levels + 1 && t.attempts <= s.attempts + c.maxRetries
            && t.slept <= s.slept + c.maxRetries * c.policy.cap
            && (c.policy.algorithm.DecorrelatedJitter? && t.levels > s.levels ==> t.draws == t.attempts - s.attempts)
  {
    hide Loop;
    CheckWithin(c, s, false);
    var t := Check(c, s, false).state;
    if !Ask(s).ok {
      LoopAlone(c, Enter(Ask(s).state), 0);
    }
    Multiply(t.levels - s.levels, 1, c.maxRetries);
    Multiply(t.attempts - s.attempts, c.maxRetries, c.policy.cap);
  }

  lemma BoundsAt(c: Config, s: State, noRetry: bool)
    ensures var t := Check(c, s, noRetry).state;
            && t.slept <= s.slept + Product(t.attempts - s.attempts, c.policy.cap)
            && (!Reenters(c) ==> t.attempts <= s.attempts + c.maxRetries && t.slept <= s.slept + c.maxRetries * c.policy.cap)
  {
    hide Loop, CanSleep;
    CheckWithin(c, s, noRetry);
    if !Reenters(c) && !noRetry {
      CheckAlone(c, s);
    }
  }

  lemma Multiply(a: int, b: int, m: nat)
    requires a <= b
    ensures a * m <= b * m
  {
  }

  // ---------------------------------------------------------------- when every login is dropped

  /** The attempts before the first that may be preceded by a sleep. */
  function Late(c: Config): nat {
    match c.policy.algorithm
    case EqualJitter => if c.policy.base == 1 then 1 else 0
    case Exponential => FirstSleep(c.policy, c.maxRetries)
    case _ => 0
  }

  /** A draw that makes the sleep last. */
  function Lasting(c: Config): nat {
    if !c.policy.algorithm.EqualJitter? then 1
    else if Usleep(Term(c.policy.base, c.policy.cap, Late(c)) / 2) > 0 then 0
    else 2
  }

  /** A connection that is made, and lost as soon as it is written to: delay, connection, liveness. */
  function Dropped(c: Config): seq<Answer> {
    [Answer(true, Lasting(c)), Answer(true, 0), Answer(true, 0)]
  }

  /** n connections that are not made: delay, nothing in the pool if there is one, no new connection. */
  function Unmade(c: Config, n: nat): seq<Answer> {
    if n == 0 then []
    else seq(if c.echo then 3 else 2, _ => Answer(false, 0)) + Unmade(c, n - 1)
  }

  /** The connection is lost, and each new one is lost again during its login, d times in all. */
  function Deep(c: Config, d: nat): seq<Answer> {
    if d == 0 then [] else [Answer(false, 0)] + Unmade(c, Late(c)) + Dropped(c) + Deep(c, d - 1)
  }

  lemma {:induction false} UnmadeLoops(c: Config, s: State, i: nat, n: nat, rest: seq<Answer>) returns (t: State)
    requires i + n <= c.maxRetries && s.env == Unmade(c, n) + rest
    ensures Loop(c, s, i) == Loop(c, t, i + n) && t.env == rest && t.slept >= s.slept
    ensures n == 0 || !c.policy.algorithm.DecorrelatedJitter? ==> t.previous == s.previous
    decreases n
  {
    hide Delay;
    if n == 0 {
      t := s;
    } else {
      var w := Wait(c, s, i);
      var next := w.(env := Unmade(c, n - 1) + rest);
      assert w.env == s.env[1..] && s.env[if c.echo then 3 else 2..] == next.env;
      assert Connect(c, w) == Result(false, next);
      t := UnmadeLoops(c, next, i + 1, n - 1, rest);
    }
  }

  lemma Sleeps(c: Config, s: State, t: State, extra: nat)
    requires Within(c, s, t, extra)
    ensures s.slept <= t.slept
  {
  }

  lemma ExchangeLater(c: Config, s: State)
    ensures Check(c, s, false).state.slept <= Exchange(c, s).state.slept
  {
    hide Check;
    var open := Check(c, s, false);
    var sent := if open.ok then Ask(open.state) else open;
    if sent.ok {
      CheckWithin(c, sent.state, true);
      Sleeps(c, sent.state, Check(c, sent.state, true).state, 0);
    }
  }

  lemma LoginLater(c: Config, s: State)
    requires c.password || c.db
    ensures Check(c, s, false).state.slept <= Login(c, s).state.slept
  {
    hide Check, Exchange;
    ExchangeLater(c, s);
    var a := if c.password then Exchange(c, s) else Result(true, s);
    if c.password && a.ok && c.db {
      ExchangeWithin(c, a.state);
      Sleeps(c, a.state, Exchange(c, a.state).state, 0);
    }
  }

  lemma LoopLater(c: Config, s: State, i: nat)
    requires i < c.maxRetries
    ensures Connect(c, Wait(c, s, i)).state.slept <= Loop(c, s, i).state.slept
  {
    hide Connect, Login, Remember, Delay;
    var k := Connect(c, Wait(c, s, i));
    var a := if k.ok then Ask(k.state) else k;
    if a.ok {
      LoginWithin(c, a.state);
      Sleeps(c, a.state, Login(c, a.state).state, 0);
    } else {
      LoopWithin(c, a.state, i + 1);
      Sleeps(c, a.state, Loop(c, a.state, i + 1).state, c.maxRetries - i - 1);
    }
  }

  lemma DroppedChecks(c: Config, s: State, i: nat, rest: seq<Answer>)
    requires i < c.maxRetries && Reenters(c) && s.env == Dropped(c) + rest
    ensures Check(c, Wait(c, s, i).(env := rest), false).state.slept <= Loop(c, s, i).state.slept
  {
    hide Remember, Delay, Check;
    var w := Wait(c, s, i);
    var lost := w.(env := rest);
    assert w.env == Dropped(c)[1..] + rest;
    assert Ask(w) == Result(true, w.(env := w.env[1..])) && Ask(Ask(w).state) == Result(true, lost);
    ExchangeLater(c, lost);
    if c.echo {
      LoopLater(c, s, i);
    } else {
      LoginLater(c, lost);
    }
  }

  lemma DelaysSleep(c: Config, s: State, rest: seq<Answer>)
    requires CanSleep(c) && s.env == Dropped(c) + rest && s.previous == 0
    ensures Late(c) < c.maxRetries && Wait(c, s, Late(c)).slept > s.slept
  {
    hide Term;
    FirstTerms(c.policy.base, c.policy.cap);
    if c.policy.algorithm.EqualJitter? {
      JitterSleeps(Term(c.policy.base, c.policy.cap, Late(c)));
    }
  }

  lemma JitterSleeps(temp: nat)
    requires temp > 1
    ensures Usleep(temp / 2) > 0 || Usleep(temp / 2 + 1) > 0
  {
  }

  lemma LateEnough(c: Config)
    requires CanSleep(c)
    ensures Late(c) < c.maxRetries && (c.policy.algorithm.DecorrelatedJitter? ==> Late(c) == 0)
  {
  }

  /** Each of them costs a sleep of its own. */
  lemma {:induction false} SleepsDeep(c: Config, s: State, d: nat)
    requires Reenters(c) && CanSleep(c) && s.env == Deep(c, d)
    ensures Check(c, s, false).state.slept >= s.slept + d
    decreases d
  {
    hide Loop, Delay, Remember, CanSleep, Dropped, Unmade, Late;
    if d > 0 {
      var rest := Deep(c, d - 1);
      var e := Enter(Ask(s).state);
      assert e.env == Unmade(c, Late(c)) + (Dropped(c) + rest);
      LateEnough(c);
      var t := UnmadeLoops(c, e, 0, Late(c), Dropped(c) + rest);
      DroppedChecks(c, t, Late(c), rest);
      DelaysSleep(c, t, rest);
      SleepsDeep(c, Wait(c, t, Late(c)).(env := rest), d - 1);
    }
  }

  // ---------------------------------------------------------------- the bound

  /** How long one call sleeps. */
  function Slept(c: Config, env: seq<Answer>, previous: ulong): nat {
    Check(c, State(env, previous, 0, 0, 0, 0), false).state.slept
  }

  /** One call sleeps at most max_retries times the cap, whatever the network does. */
  ghost predicate Bounded(c: Config) {
    forall env, previous :: Slept(c, env, previous) <= c.maxRetries * c.policy.cap
  }

  /** ... if and only if there is neither a password nor a database nor a liveness check to write,
      or no delay at all. */
  lemma {:induction false} BoundedIff(c: Config)
    ensures Bounded(c) <==> !Reenters(c) || !CanSleep(c)
  {
    hide Check, Deep, CanSleep;
    if Reenters(c) && CanSleep(c) {
      var n := c.maxRetries * c.policy.cap + 1;
      var env := Unbounded(c, n);
      assert Slept(c, env, 0) >= n;
    } else {
      forall env, previous ensures Slept(c, env, previous) <= c.maxRetries * c.policy.cap {
        var s := State(env, previous, 0, 0, 0, 0);
        if !Reenters(c) {
          CheckAlone(c, s);
        } else {
          NothingSlept(c, s);
        }
      }
    }
  }

  /** Otherwise there is no bound at all. */
  lemma Unbounded(c: Config, n: nat) returns (env: seq<Answer>)
    requires Reenters(c) && CanSleep(c)
    ensures Slept(c, env, 0) >= n
  {
    env := Deep(c, n);
    SleepsDeep(c, State(env, 0, 0, 0, 0, 0), n);
  }

  lemma NothingSlept(c: Config, s: State)
    requires !CanSleep(c)
    ensures Check(c, s, false).state.slept == s.slept
  {
    hide Loop, CanSleep;
    if !Ask(s).ok {
      LoopWithin(c, Enter(Ask(s).state), 0);
    }
  }

  /** Once nothing fails any more. */
  lemma AllWell(c: Config, s: State)
    requires s.env == []
    ensures Exchange(c, s) == Login(c, s) == Connect(c, s) == Result(true, s)
    ensures c.maxRetries > 0 ==> Loop(c, s, 0) == Result(true, Wait(c, s, 0))
  {
    hide Remember, Delay;
    assert Check(c, s, false) == Check(c, s, true) == Result(true, s);
    assert Exchange(c, s) == Result(true, s);
    var w := Wait(c, s, 0);
    assert Check(c, w, false) == Check(c, w, true) == Result(true, w);
    assert Exchange(c, w) == Result(true, w);
  }

  /** A connection is lost, and the new one is lost again when AUTH is written. */
  const LOST_TWICE := [Answer(false, 0), Answer(true, 0), Answer(true, 0), Answer(true, 0), Answer(false, 0)]

  /** With one retry, a constant delay and a password, the call then sleeps twice the delay. */
  lemma DroppedAuth(delay: ulong)
    ensures var c := Config(Policy(Constant, delay, delay), 1, true, false, false);
            Slept(c, LOST_TWICE, 0) == 2 * Usleep(delay)
  {
    var c := Config(Policy(Constant, delay, delay), 1, true, false, false);
    var e := Enter(Ask(State(LOST_TWICE, 0, 0, 0, 0, 0)).state);
    var t := Wait(c, e, 0).(env := [Answer(false, 0)]);
    assert Connect(c, Wait(c, e, 0)) == Result(true, t.(env := [Answer(true, 0), Answer(false, 0)]));
    assert Loop(c, e, 0) == Login(c, t) == Exchange(c, t);
    AllWell(c, Enter(Ask(t).state));
    assert Check(c, t, false) == Result(true, Wait(c, Enter(Ask(t).state), 0));
  }

  // ---------------------------------------------------------------- the socket

  class Socket {
    const config: Config
    const backoff: RedisBackoff
    var open: bool                   // there is a stream, and it is not marked as failed
    var transaction: bool            // in MULTI mode, or watching keys
    var env: seq<Answer>
    ghost var slept: nat
    ghost var attempts: nat
    ghost var levels: nat

    /** A socket that is connected. */
    constructor (config: Config, env: seq<Answer>)
      ensures Valid() && open && !transaction && Now() == State(env, 0, 0, 0, 0, 0)
      ensures this.config == config && fresh(backoff)
    {
      this.config, this.env := config, env;
      backoff := new RedisBackoff(config.policy);
      open, transaction, slept, attempts, levels := true, false, 0, 0, 0;
    }

    ghost predicate Valid()
      reads this, backoff
    {
      backoff.policy == config.policy && backoff.Valid()
    }

    ghost function Now(): State
      reads this, backoff
    {
      State(env, backoff.previous, backoff.draws, slept, attempts, levels)
    }

    method NextAnswer() returns (ok: bool)
      modifies `env
      ensures Result(ok, Now()) == Ask(old(Now()))
    {
      ok := true;
      if env != [] {
        ok, env := env[0].ok, env[1..];
      }
    }

    /** redis_check_eof. In a transaction the connection is not replaced. Each attempt sleeps for at
        most the cap, and unless logging in writes there are at most max_retries of them. */
    method CheckEof(noRetry: bool) returns (alive: bool)
      requires Valid()
      modifies this, backoff
      ensures Valid() && open == alive && transaction == (old(transaction) && (alive || !old(open)))
      ensures if !old(open) then !alive && Now() == old(Now())
              else if old(transaction) then Result(alive, Now()) == Ask(old(Now()))
              else Result(alive, Now()) == Check(config, old(Now()), noRetry)
      ensures slept <= old(slept) + Product(attempts - old(attempts), config.policy.cap)
      ensures !Reenters(config) ==>
                attempts <= old(attempts) + config.maxRetries && slept <= old(slept) + config.maxRetries * config.policy.cap
      decreases |env|, 0, 0
    {
      hide Within, Loop, Product;
      ProductSteps(0, config.policy.cap);
      BoundsAt(config, Now(), noRetry);
      if !open {
        return false;
      }
      alive := NextAnswer();
      if alive {
        return;
      }
      if !transaction {
        backoff.Reset();
        if !noRetry {
          levels := levels + 1;
          alive := Retry();
          return;
        }
      }
      open, transaction := false, false;
    }

    /** The retry loop of redis_check_eof, and what follows when it gives up. */
    method Retry() returns (alive: bool)
      requires Valid() && !transaction
      modifies this, backoff
      ensures Valid() && open == alive && !transaction
      ensures Result(alive, Now()) == Loop(config, old(Now()), 0)
      decreases |env|, 4, 0
    {
      for i := 0 to config.maxRetries
        invariant Valid() && !transaction && |env| <= |old(env)|
        invariant Loop(config, old(Now()), 0) == Loop(config, Now(), i)
      {
        Pause(i);
        alive := Connecting();
        if alive {
          alive := NextAnswer();
          if alive {
            alive := LoggingIn();
            open := alive;
            return;
          }
        }
      }
      alive, open := false, false;
    }

    /** One delay. */
    method Pause(i: nat)
      requires Valid()
      modifies `env, `slept, `attempts, backoff
      ensures Valid() && Now() == Wait(config, old(Now()), i)
    {
      hide Delay, Remember, Allowed, Tame;
      var draw := if env == [] then 0 else env[0].draw;
      var delay := backoff.Compute(i, draw);
      slept, attempts := slept + Usleep(delay), attempts + 1;
      var _ := NextAnswer();
    }

    /** redis_sock_connect. */
    method Connecting() returns (ok: bool)
      requires Valid() && !transaction
      modifies this, backoff
      ensures Valid() && open == ok && !transaction && |env| <= |old(env)|
      ensures Result(ok, Now()) == Connect(config, old(Now()))
      decreases |env|, 2, 0
    {
      if config.echo {
        ok := NextAnswer();
        if ok {
          ok := NextAnswer();
        }
        if ok {
          open := true;
          ok := Exchanging();
        }
        if ok {
          open := true;
          return;
        }
      }
      ok := NextAnswer();
      open := ok;
    }

    /** redis_sock_auth and reselect_db. */
    method LoggingIn() returns (ok: bool)
      requires Valid() && open && !transaction
      modifies this, backoff
      ensures Valid() && !transaction
      ensures Result(ok, Now()) == Login(config, old(Now()))
      decreases |env|, 2, 0
    {
      ok := true;
      if config.password {
        ok := Exchanging();
      }
      if ok && config.db {
        ok := Exchanging();
      }
    }

    /** redis_sock_write, and reading the reply. */
    method Exchanging() returns (ok: bool)
      requires Valid() && open && !transaction
      modifies this, backoff
      ensures Valid() && !transaction && (ok ==> open)
      ensures Result(ok, Now()) == Exchange(config, old(Now()))
      decreases |env|, 1, 0
    {
      ok := CheckEof(false);
      if ok {
        ok := NextAnswer();
      }
      if ok {
        ok := CheckEof(true);
      }
      if ok {
        ok := NextAnswer();
      }
    }
  }
}
