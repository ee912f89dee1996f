/** The per-UID token bucket: lazy refill, and eviction of idle buckets every so many calls. */
module RateLimit {
  import opened Collections

  /** Seconds of idleness after which a bucket may be dropped, calls between sweeps, and the shortest
      gap, in seconds, for which a bucket is refilled. */
  const IDLE_WINDOW := 300.0
  const SWEEP_EVERY := 1024
  const MIN_REFILL_INTERVAL := 0.001

  datatype Bucket = Bucket(tokens: real, lastFill: real)
  datatype Config = Config(capacity: real, refill: real)
  datatype State = State(buckets: map<nat, Bucket>, counter: nat)
  datatype Call = Call(uid: nat, now: real)

  function Elapsed(from: real, now: real): real {
    if now > from then now - from else 0.0
  }

  function Refilled(cfg: Config, b: Bucket, now: real): Bucket {
    var elapsed := Elapsed(b.lastFill, now);
    if elapsed > MIN_REFILL_INTERVAL then
      var tokens := b.tokens + elapsed * cfg.refill;
      Bucket(if tokens > cfg.capacity then cfg.capacity else tokens, now)
    else b
  }

  /** The bucket of `uid` as a call at `now` finds it; a new one is full. */
  function Found(cfg: Config, buckets: map<nat, Bucket>, uid: nat, now: real): Bucket {
    Refilled(cfg, if uid in buckets then buckets[uid] else Bucket(cfg.capacity, now), now)
  }

  function Spend(b: Bucket): (Bucket, bool) {
    if b.tokens < 1.0 then (b, false) else (b.(tokens := b.tokens - 1.0), true)
  }

  /** Buckets not idle for longer than the window. */
  function Retained(buckets: map<nat, Bucket>, now: real): map<nat, Bucket> {
    map uid | uid in buckets && buckets[uid].lastFill >= now - IDLE_WINDOW :: buckets[uid]
  }

  function Swept(st: State, now: real): State {
    if st.counter + 1 < SWEEP_EVERY then st.(counter := st.counter + 1)
    else State(Retained(st.buckets, now), 0)
  }

  /** One request; with `sweeping` false, the same limiter without eviction. */
  function Step(cfg: Config, st: State, call: Call, sweeping: bool): (State, bool) {
    var st' := if sweeping then Swept(st, call.now) else st;
    var (b, ok) := Spend(Found(cfg, st'.buckets, call.uid, call.now));
    (st'.(buckets := st'.buckets[call.uid := b]), ok)
  }

  function Run(cfg: Config, st: State, calls: seq<Call>, sweeping: bool): (r: (State, seq<bool>))
    ensures |r.1| == |calls|
    decreases |calls|
  {
    if calls == [] then (st, [])
    else
      var (st1, ok) := Step(cfg, st, calls[0], sweeping);
      var (st2, oks) := Run(cfg, st1, calls[1..], sweeping);
      (st2, [ok] + oks)
  }

  const EMPTY := State(map[], 0)

  class RateLimiter {
    const cfg: Config
    var buckets: map<nat, Bucket>
    var sweepCounter: nat

    ghost function Contents(): State
      reads this
    {
      State(buckets, sweepCounter)
    }

    constructor (capacity: real, refill: real)
      ensures cfg == Config(capacity, refill) && Contents() == EMPTY
    {
      cfg := Config(capacity, refill);
      buckets, sweepCounter := map[], 0;
    }

    method MaybeSweep(now: real)
      modifies this
      ensures Contents() == Swept(old(Contents()), now)
    {
      sweepCounter := sweepCounter + 1;
      if sweepCounter < SWEEP_EVERY {
        return;
      }
      sweepCounter := 0;
      var cutoff := now - IDLE_WINDOW;
      buckets := map uid | uid in buckets && buckets[uid].lastFill >= cutoff :: buckets[uid];
    }

    method Allow(uid: nat, now: real) returns (ok: bool)
      modifies this
      ensures (Contents(), ok) == Step(cfg, old(Contents()), Call(uid, now), true)
    {
      MaybeSweep(now);
      ghost var kept := buckets;
      if uid !in buckets {
        buckets := buckets[uid := Bucket(cfg.capacity, now)];
      }
      var entry := buckets[uid];
      var elapsed := Elapsed(entry.lastFill, now);
      if elapsed > MIN_REFILL_INTERVAL {
        var tokens := entry.tokens + elapsed * cfg.refill;
        if tokens > cfg.capacity {
          tokens := cfg.capacity;
        }
        entry := Bucket(tokens, now);
      }
      if entry.tokens < 1.0 {
        buckets := buckets[uid := entry];
        assert buckets == kept[uid := entry];
        return false;
      }
      entry := entry.(tokens := entry.tokens - 1.0);
      buckets := buckets[uid := entry];
      assert buckets == kept[uid := entry];
      return true;
    }
  }

  // ----- invariants of every run

  ghost predicate Sound(cfg: Config) {
    cfg.capacity >= 0.0 && cfg.refill >= 0.0
  }

  ghost predicate InRange(cfg: Config, st: State) {
    forall uid | uid in st.buckets :: 0.0 <= st.buckets[uid].tokens <= cfg.capacity
  }

  lemma Scales(a: real, b: real, r: real)
    requires a <= b && r >= 0.0
    ensures a * r <= b * r && b * r == a * r + (b - a) * r
  {
    assert (b - a) * r >= 0.0;
  }

  lemma StepInRange(cfg: Config, st: State, call: Call, sweeping: bool)
    requires Sound(cfg) && InRange(cfg, st)
    ensures InRange(cfg, Step(cfg, st, call, sweeping).0)
  {
    var st' := if sweeping then Swept(st, call.now) else st;
    var b := if call.uid in st'.buckets then st'.buckets[call.uid] else Bucket(cfg.capacity, call.now);
    assert 0.0 <= b.tokens <= cfg.capacity;
    Scales(0.0, Elapsed(b.lastFill, call.now), cfg.refill);
    assert 0.0 <= Found(cfg, st'.buckets, call.uid, call.now).tokens <= cfg.capacity;
  }

  /** In every run, whatever the clock does, each bucket holds between zero and `capacity` tokens. */
  lemma {:induction false} TokensStayInRange(cfg: Config, st: State, calls: seq<Call>, sweeping: bool)
    requires Sound(cfg) && InRange(cfg, st)
    ensures InRange(cfg, Run(cfg, st, calls, sweeping).0)
    decreases |calls|
  {
    if calls == [] {
    } else {
      StepInRange(cfg, st, calls[0], sweeping);
      TokensStayInRange(cfg, Step(cfg, st, calls[0], sweeping).0, calls[1..], sweeping);
    }
  }

  /** The clock never goes back, from `from` on. */
  ghost predicate Ordered(from: real, calls: seq<Call>) {
    && (forall i | 0 <= i < |calls| :: from <= calls[i].now)
    && (forall i, j | 0 <= i < j < |calls| :: calls[i].now <= calls[j].now)
  }

  // ----- eviction cannot be observed

  /** The sweeping limiter has the buckets of the other one, except some idle for over the window. */
  ghost predicate Agree(full: State, swept: State, clock: real) {
    && (forall uid | uid in swept.buckets :: uid in full.buckets && full.buckets[uid] == swept.buckets[uid])
    && (forall uid | uid in full.buckets && uid !in swept.buckets ::
          full.buckets[uid].lastFill < clock - IDLE_WINDOW)
  }

  /** A bucket idle for over the window is found full, exactly like a new one. */
  lemma IdleIsFull(cfg: Config, b: Bucket, now: real)
    requires Sound(cfg) && cfg.capacity <= IDLE_WINDOW * cfg.refill
    requires 0.0 <= b.tokens && b.lastFill < now - IDLE_WINDOW
    ensures Refilled(cfg, b, now) == Bucket(cfg.capacity, now)
  {
    Scales(IDLE_WINDOW, now - b.lastFill, cfg.refill);
  }

  lemma StepsAgree(cfg: Config, full: State, swept: State, clock: real, call: Call)
    requires Sound(cfg) && cfg.capacity <= IDLE_WINDOW * cfg.refill
    requires InRange(cfg, full) && Agree(full, swept, clock) && clock <= call.now
    ensures var (full', ok) := Step(cfg, full, call, false);
            var (swept', ok') := Step(cfg, swept, call, true);
            ok == ok' && Agree(full', swept', call.now)
  {
    var uid, now := call.uid, call.now;
    var s := Swept(swept, now);
    assert Agree(full, s, now);
    if uid in full.buckets && uid !in s.buckets {
      IdleIsFull(cfg, full.buckets[uid], now);
    }
    assert Found(cfg, full.buckets, uid, now) == Found(cfg, s.buckets, uid, now);
  }

  lemma {:induction false} RunsAgree(cfg: Config, full: State, swept: State, clock: real, calls: seq<Call>)
    requires Sound(cfg) && cfg.capacity <= IDLE_WINDOW * cfg.refill
    requires InRange(cfg, full) && Agree(full, swept, clock) && Ordered(clock, calls)
    ensures Run(cfg, full, calls, false).1 == Run(cfg, swept, calls, true).1
    decreases |calls|
  {
    if calls == [] {
    } else {
      StepsAgree(cfg, full, swept, clock, calls[0]);
      StepInRange(cfg, full, calls[0], false);
      hide Step, InRange, Agree;
      assert calls[0] in calls;
      RunsAgree(cfg, Step(cfg, full, calls[0], false).0, Step(cfg, swept, calls[0], true).0, calls[0].now, calls[1..]);
    }
  }

  /** No run with a clock that never goes back tells a limiter that evicts from one that does not. */
  ghost predicate Unobservable(cfg: Config) {
    forall calls | Ordered(0.0, calls) :: Run(cfg, EMPTY, calls, false).1 == Run(cfg, EMPTY, calls, true).1
  }

  // ----- when it can: a run that tells the two limiters apart

  lemma {:induction false} RunConcat(cfg: Config, st: State, a: seq<Call>, b: seq<Call>, sweeping: bool)
    ensures var (st1, oks1) := Run(cfg, st, a, sweeping);
            var (st2, oks2) := Run(cfg, st1, b, sweeping);
            Run(cfg, st, a + b, sweeping) == (st2, oks1 + oks2)
    decreases |a|
  {
    hide Step;
    if a == [] {
      assert a + b == b;
      assert [] + Run(cfg, st, b, sweeping).1 == Run(cfg, st, b, sweeping).1;
    } else {
      var (st1, ok) := Step(cfg, st, a[0], sweeping);
      assert (a + b)[0] == a[0] && (a + b)[1..] == a[1..] + b;
      RunConcat(cfg, st1, a[1..], b, sweeping);
      var (st2, oks) := Run(cfg, st1, a[1..], sweeping);
      var oks2 := Run(cfg, st2, b, sweeping).1;
      assert [ok] + (oks + oks2) == [ok] + oks + oks2;
    }
  }

  lemma CounterStep(cfg: Config, st: State, call: Call, sweeping: bool)
    requires st.counter < SWEEP_EVERY
    ensures Step(cfg, st, call, sweeping).0.counter == if sweeping then (st.counter + 1) % SWEEP_EVERY else st.counter
  {
    hide Found, Spend, Retained;
  }

  lemma OneThenMore(c: nat, n: nat)
    requires c < SWEEP_EVERY
    ensures ((c + 1) % SWEEP_EVERY + n) % SWEEP_EVERY == (c + (n + 1)) % SWEEP_EVERY
  {
  }

  lemma {:induction false} CounterAdvances(cfg: Config, st: State, calls: seq<Call>, sweeping: bool)
    requires st.counter < SWEEP_EVERY
    ensures Run(cfg, st, calls, sweeping).0.counter
         == if sweeping then (st.counter + |calls|) % SWEEP_EVERY else st.counter
    decreases |calls|
  {
    hide Step;
    if calls == [] {
    } else {
      var st1 := Step(cfg, st, calls[0], sweeping).0;
      CounterStep(cfg, st, calls[0], sweeping);
      CounterAdvances(cfg, st1, calls[1..], sweeping);
      OneThenMore(st.counter, |calls| - 1);
    }
  }

  /** Calls of one uid at one instant leave every recently used bucket of another uid alone. */
  lemma {:induction false} OthersUntouched(cfg: Config, st: State, call: Call, k: nat, sweeping: bool, uid: nat)
    requires uid != call.uid && uid in st.buckets && st.buckets[uid].lastFill == call.now
    ensures var st' := Run(cfg, st, Repeat(call, k), sweeping).0;
            uid in st'.buckets && st'.buckets[uid] == st.buckets[uid]
    decreases k
  {
    if k == 0 {
    } else {
      assert Repeat(call, k)[1..] == Repeat(call, k - 1);
      OthersUntouched(cfg, Step(cfg, st, call, sweeping).0, call, k - 1, sweeping, uid);
    }
  }

  /** A bucket that a call at `now` does not refill. */
  predicate TooSoon(b: Bucket, now: real) {
    b.lastFill <= now <= b.lastFill + MIN_REFILL_INTERVAL
  }

  /** Successive calls of one uid at one instant, all admitted, take one token each. */
  lemma {:induction false} Drain(cfg: Config, st: State, call: Call, k: nat, sweeping: bool)
    requires call.uid in st.buckets && TooSoon(st.buckets[call.uid], call.now)
    ensures var (st', oks) := Run(cfg, st, Repeat(call, k), sweeping);
            var tokens := st.buckets[call.uid].tokens;
            && call.uid in st'.buckets && st'.buckets[call.uid].lastFill == st.buckets[call.uid].lastFill
            && (tokens >= k as real ==> forall i | 0 <= i < k :: oks[i])
            && ((forall i | 0 <= i < k :: oks[i]) ==> st'.buckets[call.uid].tokens == tokens - k as real)
    decreases k
  {
    if k == 0 {
    } else {
      assert Repeat(call, k)[1..] == Repeat(call, k - 1);
      var (st1, ok) := Step(cfg, st, call, sweeping);
      assert st1.buckets[call.uid] == Spend(st.buckets[call.uid]).0 && ok == Spend(st.buckets[call.uid]).1;
      hide Step;
      Drain(cfg, st1, call, k - 1, sweeping);
      var oks := Run(cfg, st, Repeat(call, k), sweeping).1;
      var rest := Run(cfg, st1, Repeat(call, k - 1), sweeping).1;
      assert oks[0] == ok && oks[1..] == rest;
      assert (forall i | 0 <= i < k :: oks[i]) <==> ok && forall i | 0 <= i < k - 1 :: rest[i] by {
        assert forall i | 0 <= i < k - 1 :: rest[i] == oks[i + 1];
      }
    }
  }

  /** The same for a burst whose first call finds such a bucket, refilled by it or not. */
  lemma Burst(cfg: Config, st: State, call: Call, k: nat, sweeping: bool, found: Bucket)
    requires k >= 1 && TooSoon(found, call.now)
    requires found == Found(cfg, (if sweeping then Swept(st, call.now) else st).buckets, call.uid, call.now)
    ensures var (st', oks) := Run(cfg, st, Repeat(call, k), sweeping);
            && call.uid in st'.buckets && st'.buckets[call.uid].lastFill == found.lastFill
            && (found.tokens >= k as real ==> forall i | 0 <= i < k :: oks[i])
            && ((forall i | 0 <= i < k :: oks[i]) ==> st'.buckets[call.uid].tokens == found.tokens - k as real)
  {
    var calls := Repeat(call, k);
    assert calls[1..] == Repeat(call, k - 1) && calls[0] == call;
    var (st1, ok) := Step(cfg, st, call, sweeping);
    Drain(cfg, st1, call, k - 1, sweeping);
    var oks, rest := Run(cfg, st, calls, sweeping).1, Run(cfg, st1, calls[1..], sweeping).1;
    assert oks[0] == ok && oks[1..] == rest;
    assert (forall i | 0 <= i < k :: oks[i]) <==> ok && forall i | 0 <= i < k - 1 :: rest[i] by {
      assert forall i | 0 <= i < k - 1 :: rest[i] == oks[i + 1];
    }
  }

  /** The state after `n` calls of uid 1 and a number of calls of uid 2, all at time zero: the bucket of
      uid 1 is empty and the next call sweeps. */
  lemma Emptied(cfg: Config, n: nat, pad: nat, sweeping: bool)
    requires n >= 1 && cfg.capacity == n as real && pad == SWEEP_EVERY - 1 - n % SWEEP_EVERY
    ensures var st := Run(cfg, EMPTY, Repeat(Call(1, 0.0), n) + Repeat(Call(2, 0.0), pad), sweeping).0;
            && 1 in st.buckets && st.buckets[1] == Bucket(0.0, 0.0)
            && st.counter == if sweeping then SWEEP_EVERY - 1 else 0
  {
    hide Step;
    var a, b := Repeat(Call(1, 0.0), n), Repeat(Call(2, 0.0), pad);
    RunConcat(cfg, EMPTY, a, b, sweeping);
    Burst(cfg, EMPTY, Call(1, 0.0), n, sweeping, Bucket(cfg.capacity, 0.0));
    var st := Run(cfg, EMPTY, a, sweeping).0;
    OthersUntouched(cfg, st, Call(2, 0.0), pad, sweeping, 1);
    CounterAdvances(cfg, EMPTY, a + b, sweeping);
  }

  lemma LaterAnswersDiffer(cfg: Config, before: seq<Call>, after: seq<Call>)
    requires Run(cfg, Run(cfg, EMPTY, before, false).0, after, false).1 != Run(cfg, Run(cfg, EMPTY, before, true).0, after, true).1
    ensures Run(cfg, EMPTY, before + after, false).1 != Run(cfg, EMPTY, before + after, true).1
  {
    hide Run;
    RunConcat(cfg, EMPTY, before, after, true);
    RunConcat(cfg, EMPTY, before, after, false);
    var a, b := Run(cfg, EMPTY, before + after, false).1, Run(cfg, EMPTY, before + after, true).1;
    assert a[|before|..] == Run(cfg, Run(cfg, EMPTY, before, false).0, after, false).1;
    assert b[|before|..] == Run(cfg, Run(cfg, EMPTY, before, true).0, after, true).1;
  }

  lemma IdleButNotRefilled(cfg: Config) returns (wait: real)
    requires Sound(cfg) && cfg.capacity > IDLE_WINDOW * cfg.refill
    ensures wait > IDLE_WINDOW && 0.0 <= wait * cfg.refill < cfg.capacity
  {
    var r, spare := cfg.refill, cfg.capacity - IDLE_WINDOW * cfg.refill;
    if r == 0.0 {
      wait := IDLE_WINDOW + 1.0;
    } else {
      var extra := spare / (2.0 * r);
      wait := IDLE_WINDOW + extra;
      assert extra * r == spare / 2.0;
      assert wait * r == IDLE_WINDOW * r + extra * r;
    }
  }

  /** With an integer capacity of at least one token and more than the window refills, there is a run in
      which eviction hands out tokens that the limiter without eviction refuses. */
  lemma SweepObserved(cfg: Config, n: nat) returns (calls: seq<Call>)
    requires Sound(cfg) && n >= 1 && cfg.capacity == n as real && cfg.capacity > IDLE_WINDOW * cfg.refill
    ensures Ordered(0.0, calls)
    ensures Run(cfg, EMPTY, calls, false).1 != Run(cfg, EMPTY, calls, true).1
  {
    hide Run, Step;
    var wait := IdleButNotRefilled(cfg);
    var pad := SWEEP_EVERY - 1 - n % SWEEP_EVERY;
    var before := Repeat(Call(1, 0.0), n) + Repeat(Call(2, 0.0), pad);
    var call := Call(1, wait);
    var after := Repeat(call, n);
    calls := before + after;
    assert Ordered(0.0, calls);
    Emptied(cfg, n, pad, true);
    Emptied(cfg, n, pad, false);
    var swept, full := Run(cfg, EMPTY, before, true).0, Run(cfg, EMPTY, before, false).0;
    Burst(cfg, swept, call, n, true, Bucket(cfg.capacity, wait));
    Burst(cfg, full, call, n, false, Bucket(wait * cfg.refill, wait));
    TokensStayInRange(cfg, EMPTY, before, false);
    TokensStayInRange(cfg, full, after, false);
    assert !forall i | 0 <= i < n :: Run(cfg, full, after, false).1[i];
    LaterAnswersDiffer(cfg, before, after);
  }

  /** For the integer capacities that the daemon configures, eviction is unobservable in every run, over
      all interleavings of uids, exactly when the idle window refills a whole bucket. */
  lemma UnobservableExactly(cfg: Config, n: nat)
    requires Sound(cfg) && cfg.capacity == n as real
    ensures Unobservable(cfg) <==> cfg.capacity <= IDLE_WINDOW * cfg.refill
  {
    hide Run, Ordered;
    if cfg.capacity <= IDLE_WINDOW * cfg.refill {
      forall calls | Ordered(0.0, calls)
        ensures Run(cfg, EMPTY, calls, false).1 == Run(cfg, EMPTY, calls, true).1
      {
        RunsAgree(cfg, EMPTY, EMPTY, 0.0, calls);
      }
    } else {
      assert IDLE_WINDOW * cfg.refill >= 0.0;
      var calls := SweepObserved(cfg, n);
    }
  }

  // ----- how much one uid is admitted

  /** The rate at which tokens can appear: by refilling, or by evicting a bucket and starting a full one. */
  function Rate(cfg: Config): real {
    var byEviction := cfg.capacity / IDLE_WINDOW;
    if cfg.refill >= byEviction then cfg.refill else byEviction
  }

  function Admits(call: Call, ok: bool, uid: nat, s: real, t: real): nat {
    if ok && call.uid == uid && s <= call.now <= t then 1 else 0
  }

  /** Requests of `uid` admitted at times from `s` to `t`. */
  function Admitted(calls: seq<Call>, oks: seq<bool>, uid: nat, s: real, t: real): nat
    requires |calls| == |oks|
  {
    if calls == [] then 0 else Admits(calls[0], oks[0], uid, s, t) + Admitted(calls[1..], oks[1..], uid, s, t)
  }

  /** A full bucket and the rate from `s` to `x`, give or take the shortest refill gap. */
  function Allowance(cfg: Config, s: real, x: real): real {
    cfg.capacity + Rate(cfg) * (x - s + MIN_REFILL_INTERVAL)
  }

  lemma RateCovers(cfg: Config)
    requires Sound(cfg)
    ensures Rate(cfg) >= cfg.refill && IDLE_WINDOW * Rate(cfg) >= cfg.capacity
  {
  }

  lemma Distributes(r: real, x: real, y: real)
    ensures r * y == r * x + r * (y - x)
  {
  }

  /** What the rate is worth from one time to another. */
  function Worth(cfg: Config, from: real, to: real): real {
    Rate(cfg) * (to - from)
  }

  lemma AllowanceStep(cfg: Config, s: real, a: real, b: real)
    ensures Allowance(cfg, s, b) == Allowance(cfg, s, a) + Worth(cfg, a, b)
  {
    hide Rate;
    var x, y := a - s + MIN_REFILL_INTERVAL, b - s + MIN_REFILL_INTERVAL;
    Distributes(Rate(cfg), x, y);
    assert y - x == b - a;
  }

  lemma AllowanceAtStart(cfg: Config, s: real)
    ensures Allowance(cfg, s, s - MIN_REFILL_INTERVAL) == cfg.capacity
  {
    hide Rate;
    assert s - MIN_REFILL_INTERVAL - s + MIN_REFILL_INTERVAL == 0.0;
  }

  lemma NotNegative(x: real, y: real)
    requires x >= 0.0 && y >= 0.0
    ensures x * y >= 0.0
  {
  }

  lemma AtLeast(d: real, r: real, rate: real)
    requires d >= 0.0 && r <= rate
    ensures d * r <= rate * d
  {
    NotNegative(d, rate - r);
  }

  lemma LaterIsMore(r: real, x: real, y: real)
    requires r >= 0.0 && x <= y
    ensures r * x <= r * y
  {
  }

  lemma LongEnough(rate: real, capacity: real, d: real)
    requires rate >= 0.0 && IDLE_WINDOW * rate >= capacity && d > IDLE_WINDOW
    ensures capacity <= rate * d
  {
    NotNegative(rate, d - IDLE_WINDOW);
  }

  lemma WorthIs(cfg: Config, a: real, b: real)
    ensures Worth(cfg, a, b) == Rate(cfg) * (b - a)
  {
  }

  lemma WorthLong(cfg: Config, a: real, b: real)
    requires Sound(cfg) && b - a > IDLE_WINDOW
    ensures cfg.capacity <= Worth(cfg, a, b)
  {
    RateCovers(cfg);
    hide Rate;
    LongEnough(Rate(cfg), cfg.capacity, b - a);
    WorthIs(cfg, a, b);
  }

  lemma WorthMore(cfg: Config, a: real, b: real)
    requires Sound(cfg) && a <= b
    ensures 0.0 <= (b - a) * cfg.refill <= Worth(cfg, a, b)
  {
    RateCovers(cfg);
    hide Rate;
    NotNegative(b - a, cfg.refill);
    AtLeast(b - a, cfg.refill, Rate(cfg));
    WorthIs(cfg, a, b);
  }

  lemma RateEarns(cfg: Config, a: real, b: real)
    requires Sound(cfg) && a <= b
    ensures 0.0 <= (b - a) * cfg.refill <= Worth(cfg, a, b)
    ensures b - a > IDLE_WINDOW ==> cfg.capacity <= Worth(cfg, a, b)
  {
    hide Rate, Worth;
    WorthMore(cfg, a, b);
    if b - a > IDLE_WINDOW {
      WorthLong(cfg, a, b);
    }
  }

  lemma AllowanceGrows(cfg: Config, s: real, a: real, b: real)
    requires Sound(cfg) && a <= b
    ensures Allowance(cfg, s, a) + (b - a) * cfg.refill <= Allowance(cfg, s, b)
    ensures Allowance(cfg, s, a) <= Allowance(cfg, s, b)
    ensures b - a > IDLE_WINDOW ==> Allowance(cfg, s, a) + cfg.capacity <= Allowance(cfg, s, b)
    ensures a == s - MIN_REFILL_INTERVAL ==> cfg.capacity <= Allowance(cfg, s, b)
  {
    hide Rate, Allowance, Worth;
    AllowanceStep(cfg, s, a, b);
    RateEarns(cfg, a, b);
    AllowanceAtStart(cfg, s);
  }

  /** The bucket of `uid`; one that does not exist counts as full. */
  function Held(cfg: Config, st: State, uid: nat, clock: real): Bucket {
    if uid in st.buckets then st.buckets[uid] else Bucket(cfg.capacity, clock)
  }

  /** The tokens that `count` admissions since `s` spent and the tokens left are within the allowance. */
  ghost predicate Covered(cfg: Config, b: Bucket, s: real, count: nat) {
    count > 0 ==> count as real + b.tokens <= Allowance(cfg, s, b.lastFill)
  }

  ghost predicate NotAhead(st: State, clock: real) {
    forall uid | uid in st.buckets :: st.buckets[uid].lastFill <= clock
  }

  /** Eviction keeps the bound, because the idle window is worth a full bucket. */
  lemma SweepCovered(cfg: Config, st: State, uid: nat, clock: real, now: real, s: real, count: nat)
    requires Sound(cfg) && InRange(cfg, st) && NotAhead(st, clock) && clock <= now
    requires Covered(cfg, Held(cfg, st, uid, clock), s, count)
    ensures Covered(cfg, Held(cfg, Swept(st, now), uid, now), s, count)
  {
    hide Allowance;
    AllowanceGrows(cfg, s, Held(cfg, st, uid, clock).lastFill, now);
    if uid in st.buckets {
      assert 0.0 <= st.buckets[uid].tokens;
    }
  }

  /** So do refilling, starting a bucket, and leaving one as it was. */
  lemma FoundCovered(cfg: Config, st: State, uid: nat, now: real, s: real, count: nat)
    requires Sound(cfg) && InRange(cfg, st) && NotAhead(st, now) && Covered(cfg, Held(cfg, st, uid, now), s, count)
    ensures var b := Found(cfg, st.buckets, uid, now);
            && b.tokens <= cfg.capacity && now - MIN_REFILL_INTERVAL <= b.lastFill <= now
            && Covered(cfg, b, s, count)
  {
    hide Allowance;
    var b := Held(cfg, st, uid, now);
    assert b.tokens <= cfg.capacity && b.lastFill <= now;
    AllowanceGrows(cfg, s, b.lastFill, now);
  }

  lemma StepCovered(cfg: Config, st: State, call: Call, uid: nat, clock: real, s: real, t: real, count: nat)
    requires Sound(cfg) && InRange(cfg, st) && NotAhead(st, clock) && clock <= call.now <= t
    requires Covered(cfg, Held(cfg, st, uid, clock), s, count) && (call.now < s ==> count == 0)
    ensures var (st', ok) := Step(cfg, st, call, true);
            && NotAhead(st', call.now)
            && Covered(cfg, Held(cfg, st', uid, call.now), s, count + Admits(call, ok, uid, s, t))
  {
    hide Allowance;
    var now, swept := call.now, Swept(st, call.now);
    SweepCovered(cfg, st, uid, clock, now, s, count);
    if call.uid == uid {
      FoundCovered(cfg, swept, uid, now, s, count);
      var b := Found(cfg, swept.buckets, uid, now);
      if now >= s {
        AllowanceGrows(cfg, s, s - MIN_REFILL_INTERVAL, b.lastFill);
      }
    }
  }

  lemma BoundFromCover(cfg: Config, st: State, uid: nat, clock: real, s: real, t: real, count: nat)
    requires Sound(cfg) && InRange(cfg, st) && NotAhead(st, clock) && clock <= t && s <= t
    requires Covered(cfg, Held(cfg, st, uid, clock), s, count)
    ensures count as real <= Allowance(cfg, s, t)
  {
    hide Allowance;
    var b := Held(cfg, st, uid, clock);
    assert 0.0 <= b.tokens && b.lastFill <= clock;
    AllowanceGrows(cfg, s, b.lastFill, t);
    AllowanceGrows(cfg, s, s - MIN_REFILL_INTERVAL, t);
  }

  lemma {:induction false} LateCallsDoNotCount(calls: seq<Call>, oks: seq<bool>, uid: nat, s: real, t: real)
    requires |calls| == |oks| && forall i | 0 <= i < |calls| :: calls[i].now > t
    ensures Admitted(calls, oks, uid, s, t) == 0
  {
    if calls == [] {
    } else {
      LateCallsDoNotCount(calls[1..], oks[1..], uid, s, t);
    }
  }

  lemma {:induction false} AdmittedFrom(cfg: Config, st: State, calls: seq<Call>, uid: nat, clock: real,
                                        s: real, t: real, count: nat)
    requires Sound(cfg) && InRange(cfg, st) && NotAhead(st, clock) && Ordered(clock, calls)
    requires Covered(cfg, Held(cfg, st, uid, clock), s, count)
    requires clock <= t && s <= t && (clock < s ==> count == 0)
    ensures (count + Admitted(calls, Run(cfg, st, calls, true).1, uid, s, t)) as real <= Allowance(cfg, s, t)
    decreases |calls|
  {
    hide Covered, Step, Allowance, InRange, NotAhead;
    if calls == [] || calls[0].now > t {
      BoundFromCover(cfg, st, uid, clock, s, t, count);
      LateCallsDoNotCount(calls, Run(cfg, st, calls, true).1, uid, s, t);
    } else {
      var call := calls[0];
      var (st1, ok) := Step(cfg, st, call, true);
      StepCovered(cfg, st, call, uid, clock, s, t, count);
      StepInRange(cfg, st, call, true);
      AdmittedFrom(cfg, st1, calls[1..], uid, call.now, s, t, count + Admits(call, ok, uid, s, t));
      var oks := Run(cfg, st, calls, true).1;
      assert oks[0] == ok && oks[1..] == Run(cfg, st1, calls[1..], true).1;
    }
  }

  lemma RateIsRefill(cfg: Config)
    ensures cfg.capacity <= IDLE_WINDOW * cfg.refill <==> Rate(cfg) == cfg.refill
  {
  }

  /** In every run with a clock that never goes back, for every configuration, every uid and every
      window from `s` to `t`, the requests admitted are at most a full bucket and the rate over the
      window plus one millisecond; the rate is the refill rate when eviction is unobservable. */
  lemma AdmissionBound(cfg: Config, calls: seq<Call>, uid: nat, from: real, s: real, t: real)
    requires Sound(cfg) && Ordered(from, calls) && s <= t
    ensures Admitted(calls, Run(cfg, EMPTY, calls, true).1, uid, s, t) as real
         <= cfg.capacity + Rate(cfg) * (t - s + MIN_REFILL_INTERVAL)
    ensures cfg.capacity <= IDLE_WINDOW * cfg.refill <==> Rate(cfg) == cfg.refill
  {
    RateIsRefill(cfg);
    hide Rate, Run, Admitted;
    var clock := if from <= t then from else t;
    assert Ordered(clock, calls);
    AdmittedFrom(cfg, EMPTY, calls, uid, clock, s, t, 0);
    assert Allowance(cfg, s, t) == cfg.capacity + Rate(cfg) * (t - s + MIN_REFILL_INTERVAL);
  }

  // ----- the extra millisecond is exact

  lemma {:induction false} AdmittedConcat(a: seq<Call>, oksA: seq<bool>, b: seq<Call>, oksB: seq<bool>, uid: nat, s: real, t: real)
    requires |a| == |oksA| && |b| == |oksB|
    ensures Admitted(a + b, oksA + oksB, uid, s, t) == Admitted(a, oksA, uid, s, t) + Admitted(b, oksB, uid, s, t)
    decreases |a|
  {
    if a == [] {
      assert a + b == b && oksA + oksB == oksB;
    } else {
      AdmittedConcat(a[1..], oksA[1..], b, oksB, uid, s, t);
      assert (a + b)[1..] == a[1..] + b && (oksA + oksB)[1..] == oksA[1..] + oksB;
    }
  }

  lemma {:induction false} AllAdmitted(call: Call, oks: seq<bool>, s: real, t: real)
    requires s <= call.now <= t && forall i | 0 <= i < |oks| :: oks[i]
    ensures Admitted(Repeat(call, |oks|), oks, call.uid, s, t) == |oks|
    decreases |oks|
  {
    if oks == [] {
    } else {
      assert Repeat(call, |oks|)[1..] == Repeat(call, |oks| - 1);
      AllAdmitted(call, oks[1..], s, t);
    }
  }

  /** One call, all but one token of the bucket a millisecond later, just too soon for a refill, and a whole bucket at
      time `t`, in which the bucket was refilled. */
  function Squeeze(n: nat, t: real): seq<Call>
    requires n >= 1
  {
    Repeat(Call(7, 0.0), 1) + Repeat(Call(7, MIN_REFILL_INTERVAL), n - 1) + Repeat(Call(7, t), n)
  }

  lemma SqueezeOrdered(n: nat, t: real)
    requires n >= 1 && t > MIN_REFILL_INTERVAL
    ensures Ordered(0.0, Squeeze(n, t))
  {
    var calls := Squeeze(n, t);
    assert forall i | 0 <= i < |calls| :: calls[i].now == if i < 1 then 0.0 else if i < n then MIN_REFILL_INTERVAL else t;
  }

  /** A call soon after finds the bucket as it was left, swept or not. */
  lemma FindsLeft(cfg: Config, st: State, uid: nat, now: real)
    requires uid in st.buckets && st.buckets[uid].lastFill <= now <= st.buckets[uid].lastFill + IDLE_WINDOW
    ensures Found(cfg, Swept(st, now).buckets, uid, now) == Refilled(cfg, st.buckets[uid], now)
  {
    hide Refilled;
  }

  lemma TimeAndRate(n: real, t: real)
    requires t > 0.0
    ensures t * (n / t) == n && (n >= 0.0 ==> n / t >= 0.0)
  {
  }

  lemma FirstFinds(cfg: Config, call: Call)
    ensures Found(cfg, Swept(EMPTY, call.now).buckets, call.uid, call.now) == Bucket(cfg.capacity, call.now)
  {
  }

  lemma RefilledTooSoon(cfg: Config, b: Bucket, now: real)
    requires TooSoon(b, now)
    ensures Refilled(cfg, b, now) == b
  {
  }

  lemma RefilledWhole(cfg: Config, n: real, t: real)
    requires t > MIN_REFILL_INTERVAL && cfg == Config(n, n / t)
    ensures Refilled(cfg, Bucket(0.0, 0.0), t) == Bucket(n, t)
  {
    TimeAndRate(n, t);
  }

  lemma {:induction false} EarlyCallsDoNotCount(calls: seq<Call>, oks: seq<bool>, uid: nat, s: real, t: real)
    requires |calls| == |oks| && forall i | 0 <= i < |calls| :: calls[i].now < s
    ensures Admitted(calls, oks, uid, s, t) == 0
  {
    if calls == [] {
    } else {
      EarlyCallsDoNotCount(calls[1..], oks[1..], uid, s, t);
    }
  }

  /** Every call of it is admitted. */
  lemma SqueezeAdmitted(cfg: Config, n: nat, t: real)
    requires n >= 2 && MIN_REFILL_INTERVAL < t <= IDLE_WINDOW && cfg == Config(n as real, n as real / t)
    ensures Admitted(Squeeze(n, t), Run(cfg, EMPTY, Squeeze(n, t), true).1, 7, MIN_REFILL_INTERVAL, t) == 2 * n - 1
  {
    hide Run, Step, Found, Refilled, Swept;
    var s, c0, c1, c2 := MIN_REFILL_INTERVAL, Call(7, 0.0), Call(7, MIN_REFILL_INTERVAL), Call(7, t);
    var a, b, c := Repeat(c0, 1), Repeat(c1, n - 1), Repeat(c2, n);
    var (st1, oks1) := Run(cfg, EMPTY, a, true);
    FirstFinds(cfg, c0);
    Burst(cfg, EMPTY, c0, 1, true, Bucket(n as real, 0.0));
    assert st1.buckets[7] == Bucket(n as real - 1.0, 0.0);
    var (st2, oks2) := Run(cfg, st1, b, true);
    FindsLeft(cfg, st1, 7, s);
    RefilledTooSoon(cfg, st1.buckets[7], s);
    Burst(cfg, st1, c1, n - 1, true, Bucket(n as real - 1.0, 0.0));
    assert st2.buckets[7] == Bucket(0.0, 0.0);
    var oks3 := Run(cfg, st2, c, true).1;
    FindsLeft(cfg, st2, 7, t);
    RefilledWhole(cfg, n as real, t);
    Burst(cfg, st2, c2, n, true, Bucket(n as real, t));
    RunConcat(cfg, EMPTY, a, b, true);
    RunConcat(cfg, EMPTY, a + b, c, true);
    AdmittedConcat(a, oks1, b, oks2, 7, s, t);
    AdmittedConcat(a + b, oks1 + oks2, c, oks3, 7, s, t);
    EarlyCallsDoNotCount(a, oks1, 7, s, t);
    AllAdmitted(c1, oks2, s, t);
    AllAdmitted(c2, oks3, s, t);
  }

  /** A whole number beyond any bound. */
  lemma Beyond(x: real) returns (n: nat)
    ensures n as real > x && n >= 2
  {
    var f := x.Floor;
    n := if f < 1 then 2 else f + 1;
  }

  lemma StrictlyMore(a: real, b: real, r: real)
    requires a < b && r > 0.0
    ensures r * a < r * b
  {
  }

  lemma WorthMoreThanOne(n: real, t: real, gap: real, r: real)
    requires t > 0.0 && gap > 0.0 && t * r == n && n > t / gap
    ensures r * gap > 1.0
  {
    TimeAndRate(t, gap);
    StrictlyMore(t / gap, n, gap);
    assert gap * n > t;
    assert gap * (t * r) == t * (r * gap);
    if r * gap <= 1.0 {
      Scales(r * gap, 1.0, t);
    }
  }

  lemma SqueezeExceeds(n: real, t: real, gap: real, r: real)
    requires t > 0.0 && gap > 0.0 && t * r == n && n > t / gap
    ensures 2.0 * n - 1.0 > n + r * (t - gap)
  {
    WorthMoreThanOne(n, t, gap, r);
    Distributes(r, t - gap, t);
  }

  lemma WindowCovers(n: real, t: real)
    requires 0.0 < t <= IDLE_WINDOW && n >= 0.0
    ensures n <= IDLE_WINDOW * (n / t)
  {
    var r := n / t;
    TimeAndRate(n, t);
    Scales(t, IDLE_WINDOW, r);
  }

  /** No smaller slack will do: for every one short of a millisecond there is a limiter without observable eviction and
      a run of it that admits more than the bucket, the rate over the window and that slack. */
  lemma SlackIsExact(delta: real) returns (cfg: Config, calls: seq<Call>, s: real, t: real)
    requires 0.0 <= delta < MIN_REFILL_INTERVAL
    ensures Sound(cfg) && cfg.capacity <= IDLE_WINDOW * cfg.refill && Ordered(0.0, calls) && s <= t
    ensures Admitted(calls, Run(cfg, EMPTY, calls, true).1, 7, s, t) as real > cfg.capacity + cfg.refill * (t - s + delta)
  {
    hide Run, Admitted, Ordered, Squeeze;
    var gap := MIN_REFILL_INTERVAL - delta;
    s := MIN_REFILL_INTERVAL;
    t := s + gap / 2.0;
    var n := Beyond(t / gap);
    cfg, calls := Config(n as real, n as real / t), Squeeze(n, t);
    SqueezeOrdered(n, t);
    SqueezeAdmitted(cfg, n, t);
    TimeAndRate(n as real, t);
    SqueezeExceeds(n as real, t, gap, cfg.refill);
    assert cfg.refill * (t - s + delta) == cfg.refill * (t - gap) by {
      assert t - s + delta == t - gap;
    }
    assert (2 * n - 1) as real == 2.0 * n as real - 1.0;
    WindowCovers(n as real, t);
  }

  // ----- a request is denied only to a uid that spent its allowance

  /** Tokens refilled from one time to another. */
  function Earned(cfg: Config, from: real, to: real): real {
    cfg.refill * (to - from)
  }

  lemma EarnedRules(cfg: Config, s: real, from: real, to: real)
    requires Sound(cfg)
    ensures Earned(cfg, s, s) == 0.0
    ensures Earned(cfg, s, to) == Earned(cfg, s, from) + Earned(cfg, from, to)
    ensures Earned(cfg, from, to) == (to - from) * cfg.refill
    ensures from <= to ==> Earned(cfg, s, from) <= Earned(cfg, s, to)
  {
    assert s - s == 0.0;
    Distributes(cfg.refill, from - s, to - s);
    if from <= to {
      LaterIsMore(cfg.refill, from - s, to - s);
    }
  }

  /** What a run handed out accounts for the bucket: since some time `s` at which it was full, the tokens left and the
      admissions up to `t` make up a full bucket and the refill up to the last fill. */
  ghost predicate Accounted(cfg: Config, b: Bucket, calls: seq<Call>, oks: seq<bool>, uid: nat, s: real, t: real)
    requires |calls| == |oks|
  {
    && s <= b.lastFill
    && b.tokens + Admitted(calls, oks, uid, s, t) as real >= cfg.capacity + Earned(cfg, s, b.lastFill)
  }

  lemma RefilledBy(cfg: Config, b: Bucket, now: real)
    requires Sound(cfg) && b.lastFill <= now
    ensures var r := Refilled(cfg, b, now);
            r == b || r == Bucket(cfg.capacity, now) || r == Bucket(b.tokens + Earned(cfg, b.lastFill, now), now)
  {
    EarnedRules(cfg, now, b.lastFill, now);
    hide Earned;
  }

  lemma FullAccounted(cfg: Config, now: real, calls: seq<Call>, oks: seq<bool>, uid: nat, t: real)
    requires Sound(cfg) && |calls| == |oks|
    ensures Accounted(cfg, Bucket(cfg.capacity, now), calls, oks, uid, now, t)
  {
    hide Admitted, Earned;
    EarnedRules(cfg, now, now, now);
  }

  lemma RefillAccounted(cfg: Config, b: Bucket, now: real, calls: seq<Call>, oks: seq<bool>, uid: nat, s: real, t: real)
    requires Sound(cfg) && |calls| == |oks| && Accounted(cfg, b, calls, oks, uid, s, t) && b.lastFill <= now
    ensures Accounted(cfg, Bucket(b.tokens + Earned(cfg, b.lastFill, now), now), calls, oks, uid, s, t)
  {
    hide Admitted, Earned;
    EarnedRules(cfg, s, b.lastFill, now);
  }

  lemma SweptKeeps(st: State, now: real, uid: nat)
    ensures uid in Swept(st, now).buckets ==> uid in st.buckets && Swept(st, now).buckets[uid] == st.buckets[uid]
  {
  }

  /** The bucket that the next call of `uid` finds is accounted for, if the one it left is. */
  lemma FoundAccounted(cfg: Config, st: State, now: real, calls: seq<Call>, oks: seq<bool>, uid: nat, s: real, t: real)
    returns (s': real)
    requires Sound(cfg) && |calls| == |oks|
    requires uid in st.buckets ==> Accounted(cfg, st.buckets[uid], calls, oks, uid, s, t) && st.buckets[uid].lastFill <= now
    ensures var b := Found(cfg, Swept(st, now).buckets, uid, now);
            Accounted(cfg, b, calls, oks, uid, s', t) && now - MIN_REFILL_INTERVAL <= b.lastFill <= now
  {
    hide Earned, Admitted;
    var b := Found(cfg, Swept(st, now).buckets, uid, now);
    assert now - MIN_REFILL_INTERVAL <= b.lastFill <= now;
    SweptKeeps(st, now, uid);
    if b == Bucket(cfg.capacity, now) {
      s' := now;
      FullAccounted(cfg, now, calls, oks, uid, t);
    } else {
      s' := s;
      var left := st.buckets[uid];
      RefilledBy(cfg, left, now);
      if b != left {
        RefillAccounted(cfg, left, now, calls, oks, uid, s, t);
      }
    }
  }

  lemma AdmittedOne(call: Call, ok: bool, uid: nat, s: real, t: real)
    ensures Admitted([call], [ok], uid, s, t) == Admits(call, ok, uid, s, t)
  {
    assert [call][1..] == [] && [ok][1..] == [];
  }

  /** One more call keeps the account. */
  lemma StepAccounted(cfg: Config, st: State, call: Call, calls: seq<Call>, oks: seq<bool>, uid: nat, s: real, t: real)
    returns (s': real)
    requires Sound(cfg) && |calls| == |oks| && call.now <= t
    requires uid in st.buckets ==> Accounted(cfg, st.buckets[uid], calls, oks, uid, s, t) && st.buckets[uid].lastFill <= call.now
    ensures var (st', ok) := Step(cfg, st, call, true);
            uid in st'.buckets ==>
              Accounted(cfg, st'.buckets[uid], calls + [call], oks + [ok], uid, s', t) && st'.buckets[uid].lastFill <= call.now
  {
    hide Swept, Found, Admitted;
    var (st', ok) := Step(cfg, st, call, true);
    SweptKeeps(st, call.now, uid);
    if call.uid == uid {
      s' := FoundAccounted(cfg, st, call.now, calls, oks, uid, s, t);
    } else {
      s' := s;
    }
    AdmittedConcat(calls, oks, [call], [ok], uid, s', t);
    AdmittedOne(call, ok, uid, s', t);
  }

  lemma RunLast(cfg: Config, calls: seq<Call>, i: nat)
    requires i < |calls|
    ensures var (st, oks) := Run(cfg, EMPTY, calls[..i], true);
            var (st', ok) := Step(cfg, st, calls[i], true);
            Run(cfg, EMPTY, calls[..i + 1], true) == (st', oks + [ok])
  {
    hide Step;
    assert calls[..i + 1] == calls[..i] + [calls[i]];
    RunConcat(cfg, EMPTY, calls[..i], [calls[i]], true);
    var st := Run(cfg, EMPTY, calls[..i], true).0;
    var (st', ok) := Step(cfg, st, calls[i], true);
    assert [calls[i]][1..] == [] && [ok] + [] == [ok];
    assert Run(cfg, st', [], true) == (st', []);
    assert Run(cfg, st, [calls[i]], true) == (st', [ok]);
  }

  lemma {:induction false} RunAccounted(cfg: Config, from: real, calls: seq<Call>, i: nat, uid: nat, t: real) returns (s: real)
    requires Sound(cfg) && Ordered(from, calls) && i <= |calls| && forall k | 0 <= k < i :: calls[k].now <= t
    ensures var (st, oks) := Run(cfg, EMPTY, calls[..i], true);
            uid in st.buckets ==>
              && Accounted(cfg, st.buckets[uid], calls[..i], oks, uid, s, t)
              && i > 0 && st.buckets[uid].lastFill <= calls[i - 1].now
    decreases i
  {
    hide Step, Accounted;
    if i == 0 {
      s := 0.0;
      assert calls[..0] == [];
    } else {
      var before := RunAccounted(cfg, from, calls, i - 1, uid, t);
      var (st, oks) := Run(cfg, EMPTY, calls[..i - 1], true);
      RunLast(cfg, calls, i - 1);
      assert i > 1 ==> calls[i - 2].now <= calls[i - 1].now;
      s := StepAccounted(cfg, st, calls[i - 1], calls[..i - 1], oks, uid, before, t);
      assert calls[..i] == calls[..i - 1] + [calls[i - 1]];
    }
  }

  lemma {:induction false} RunPrefix(cfg: Config, calls: seq<Call>, i: nat)
    requires i <= |calls|
    ensures Run(cfg, EMPTY, calls, true).1[..i] == Run(cfg, EMPTY, calls[..i], true).1
  {
    assert calls == calls[..i] + calls[i..];
    RunConcat(cfg, EMPTY, calls[..i], calls[i..], true);
  }

  /** From `s` to `t` the uid was admitted more than a bucket less one and the refill over the window less a
      millisecond. */
  ghost predicate Spent(cfg: Config, calls: seq<Call>, oks: seq<bool>, uid: nat, s: real, t: real)
    requires |calls| == |oks|
  {
    Admitted(calls, oks, uid, s, t) as real > cfg.capacity - 1.0 + Earned(cfg, s, t - MIN_REFILL_INTERVAL)
  }

  lemma AccountedSpent(cfg: Config, b: Bucket, calls: seq<Call>, oks: seq<bool>, uid: nat, s: real, t: real)
    requires Sound(cfg) && |calls| == |oks| && Accounted(cfg, b, calls, oks, uid, s, t)
    requires b.tokens < 1.0 && t - MIN_REFILL_INTERVAL <= b.lastFill
    ensures Spent(cfg, calls, oks, uid, s, t)
  {
    hide Admitted, Earned;
    EarnedRules(cfg, s, t - MIN_REFILL_INTERVAL, b.lastFill);
  }

  lemma SinceFill(cfg: Config, b: Bucket, calls: seq<Call>, oks: seq<bool>, uid: nat, s: real, t: real)
    requires |calls| == |oks| && Accounted(cfg, b, calls, oks, uid, s, t)
    ensures s <= b.lastFill
  {
  }

  /** The converse of the admission bound. In every run with a clock that never goes back, a request is denied only if
      for some window up to it the uid has spent its allowance before. */
  lemma DeniedOnlyWhenSpent(cfg: Config, from: real, calls: seq<Call>, i: nat)
    requires Sound(cfg) && Ordered(from, calls) && i < |calls| && !Run(cfg, EMPTY, calls, true).1[i]
    ensures exists s :: s <= calls[i].now
                        && Spent(cfg, calls[..i], Run(cfg, EMPTY, calls, true).1[..i], calls[i].uid, s, calls[i].now)
  {
    hide Found, Swept, Run, Spent, Accounted;
    var uid, t := calls[i].uid, calls[i].now;
    var (st, oks) := Run(cfg, EMPTY, calls[..i], true);
    RunPrefix(cfg, calls, i);
    RunPrefix(cfg, calls, i + 1);
    RunLast(cfg, calls, i);
    assert !Step(cfg, st, calls[i], true).1 by {
      assert Run(cfg, EMPTY, calls[..i + 1], true).1[i] == Run(cfg, EMPTY, calls, true).1[i];
    }
    var before := RunAccounted(cfg, from, calls, i, uid, t);
    var s := FoundAccounted(cfg, st, t, calls[..i], oks, uid, before, t);
    var b := Found(cfg, Swept(st, t).buckets, uid, t);
    SinceFill(cfg, b, calls[..i], oks, uid, s, t);
    AccountedSpent(cfg, b, calls[..i], oks, uid, s, t);
    assert s <= t && Spent(cfg, calls[..i], Run(cfg, EMPTY, calls, true).1[..i], uid, s, t);
  }
}
