/** Wrapping time: the 16-bit timeout macros, the seconds timer derived from a wrapping
    millisecond counter, and the two tick interrupts. */
module Timing {
  import opened Arith
  import opened Platform

  const HALF16: int := 0x8000

  // ---------------------------------------------------------------- 16-bit timeouts

  /** Conversion to uint16_t and int16_t. */
  function S16(x: int): int { if U16(x) >= HALF16 then U16(x) - T16 else U16(x) }

  /** XBEE_TIMER_COMPARE( a, >, b) and ( a, <, b). */
  predicate TimerGreater(a: int, b: int) { S16(U16(a) - U16(b)) > 0 }
  predicate TimerLess(a: int, b: int) { S16(U16(a) - U16(b)) < 0 }

  /** XBEE_SET_TIMEOUT_xx stored in a uint16_t, and XBEE_CHECK_TIMEOUT_xx, for a 32-bit counter. */
  function SetTimeout(counter: int, delay: int): int { U16(U16(counter) + delay) }
  predicate CheckTimeout(counter: int, timer: int) { S16(U16(counter) - timer) >= 0 }

  lemma U16Difference(x: int, y: int)
    ensures U16(U16(x) - U16(y)) == U16(x - y)
  {
    DivModFacts(x, T16);
    DivModFacts(y, T16);
    assert x - y == (U16(x) - U16(y)) + (x / T16 - y / T16) * T16;
    ModOfMultiple(U16(x) - U16(y), x / T16 - y / T16, T16);
  }

  lemma U16Range(x: int, k: int)
    requires 0 <= x - k * T16 < T16
    ensures U16(x) == x - k * T16
  {
    DivModUnique(x, T16, k, x - k * T16);
  }

  /** The 16-bit word of a 32-bit counter is the 16-bit word of true time. */
  lemma CounterWord(t: int)
    ensures U16(t % T32) == U16(t)
  {
    DivModFacts(t, T32);
    assert t == t % T32 + ((t / T32) * T16) * T16;
    ModOfMultiple(t % T32, (t / T32) * T16, T16);
  }

  /** The comparison is the true order for times less than 2^15 apart; at exactly 2^15 each time
      is before the other. */
  lemma CompareIsOrder(x: int, y: int)
    ensures -HALF16 < x - y < HALF16 ==> (TimerGreater(x, y) <==> x > y) && (TimerLess(x, y) <==> x < y)
    ensures x - y == HALF16 ==> TimerLess(x, y) && TimerLess(y, x)
  {
    U16Difference(x, y);
    U16Difference(y, x);
    if -HALF16 <= x - y <= HALF16 {
      U16Range(x - y, if x < y then -1 else 0);
      U16Range(y - x, if y < x then -1 else 0);
    }
  }

  /** Within a span below 2^15 the comparison is transitive. */
  lemma CompareTransitive(x: int, y: int, z: int, start: int)
    requires start <= x < start + HALF16 && start <= y < start + HALF16 && start <= z < start + HALF16
    requires TimerLess(x, y) && TimerLess(y, z)
    ensures TimerLess(x, z)
  {
    CompareIsOrder(x, y);
    CompareIsOrder(y, z);
    CompareIsOrder(x, z);
  }

  /** A timeout checked e ticks after it was set with any delay: what the macros compute. */
  lemma TimeoutMeaning(t: int, delay: int, e: int)
    ensures CheckTimeout((t + e) % T32, SetTimeout(t % T32, delay)) <==> U16(e - delay) < HALF16
  {
    CounterWord(t);
    CounterWord(t + e);
    var timer := SetTimeout(t % T32, delay);
    DivModFacts(U16(t) + delay, T16);
    DivModFacts(t, T16);
    var k := (U16(t) + delay) / T16 + t / T16;
    assert timer == t + delay - k * T16;
    DivModFacts(t + e, T16);
    var j := (t + e) / T16;
    assert U16(t + e) - timer == (e - delay) + (k - j) * T16;
    ModOfMultiple(e - delay, k - j, T16);
  }

  /** Delays of 1 to 32767: false before the delay, true for the 32768 ticks from it on, across
      every wrap of the counter. */
  lemma TimeoutWindow(t: int, delay: int, e: int)
    requires 1 <= delay <= 32767 && 0 <= e < delay + 32768
    ensures CheckTimeout((t + e) % T32, SetTimeout(t % T32, delay)) <==> e >= delay
  {
    TimeoutMeaning(t, delay, e);
    U16Range(e - delay, if e < delay then -1 else 0);
  }

  /** After that the macro reads false again for as long. */
  lemma TimeoutForgets(t: int, delay: int, e: int)
    requires 1 <= delay <= 32767 && delay + 32768 <= e < delay + 65536
    ensures !CheckTimeout((t + e) % T32, SetTimeout(t % T32, delay))
  {
    TimeoutMeaning(t, delay, e);
    U16Range(e - delay, 0);
  }

  /** Polling at gaps of at most 32768 ticks observes every expiry, at the first poll after it. */
  lemma {:induction false} PollingObservesExpiry(t: int, delay: int, polls: seq<int>, n: nat) returns (i: nat)
    requires 1 <= delay <= 32767 && n < |polls|
    requires 0 <= polls[0] <= 32768
    requires forall k :: 0 <= k < |polls| - 1 ==> polls[k] <= polls[k + 1] <= polls[k] + 32768
    requires polls[n] >= delay
    ensures i <= n && CheckTimeout((t + polls[i]) % T32, SetTimeout(t % T32, delay))
    ensures forall k :: 0 <= k < i ==> polls[k] < delay
    decreases n
  {
    if n == 0 {
      i := 0;
      TimeoutWindow(t, delay, polls[0]);
    } else if polls[n - 1] >= delay {
      i := PollingObservesExpiry(t, delay, polls, n - 1);
    } else {
      i := n;
      assert polls[(n - 1) + 1] == polls[n];
      NonDecreasing(polls, n - 1);
      assert polls[0] <= polls[n - 1];
      TimeoutWindow(t, delay, polls[n]);
    }
  }

  lemma {:induction false} NonDecreasing(polls: seq<int>, n: nat)
    requires n < |polls|
    requires forall k :: 0 <= k < |polls| - 1 ==> polls[k] <= polls[k + 1]
    ensures forall k :: 0 <= k <= n ==> polls[k] <= polls[n]
  {
    if n > 0 {
      NonDecreasing(polls, n - 1);
      assert polls[n - 1] <= polls[(n - 1) + 1];
    }
  }

  // ---------------------------------------------------------------- derived seconds timer

  /** The two statics of the derived xbee_seconds_timer. */
  datatype Sec = Sec(lastMs: nat, currentS: nat)

  function SecStep(st: Sec, ms: nat): Sec
  {
    var deltaS := ((ms - st.lastMs) % T32) / 1000;
    Sec((st.lastMs + deltaS * 1000) % T32, (st.currentS + deltaS) % T32)
  }

  class SecondsTimer {
    var lastMs: nat
    var currentS: nat

    constructor ()
      ensures Sec(lastMs, currentS) == Sec(0, 0)
    {
      lastMs, currentS := 0, 0;
    }

    /** xbee_seconds_timer, the millisecond timer reading ms. At true time t it is right if the
        last call, at t0, was, and less than a turn of the counter has passed since the second that
        call returned. */
    method Seconds(ms: nat, ghost t0: nat, ghost t: nat) returns (s: nat)
      requires ms < T32
      modifies this
      ensures Sec(lastMs, currentS) == SecStep(old(Sec(lastMs, currentS)), ms)
      ensures s == currentS
      ensures InStep(old(Sec(lastMs, currentS)), t0) && ms == t % T32 && t0 <= t && t - t0 / 1000 * 1000 < T32
        ==> InStep(Sec(lastMs, currentS), t) && s == (t / 1000) % T32
    {
      ghost var before := Sec(lastMs, currentS);
      if InStep(before, t0) && t0 <= t && t - t0 / 1000 * 1000 < T32 {
        SecStepRight(before, t0, t);
      }
      var deltaS := ((ms - lastMs) % T32) / 1000;
      lastMs := (lastMs + deltaS * 1000) % T32;
      currentS := (currentS + deltaS) % T32;
      s := currentS;
    }
  }

  /** The statics after a call at true time t that returned the right value. */
  predicate InStep(st: Sec, t: nat)
  {
    st.lastMs == (t / 1000 * 1000) % T32 && st.currentS == (t / 1000) % T32
  }

  lemma AddMod(x: int, y: int, m: int)
    requires m > 0
    ensures (x % m + y) % m == (x + y) % m
  {
    DivModFacts(x, m);
    ModOfMultiple(x % m + y, x / m, m);
  }

  lemma SubMod(x: int, y: int, m: int)
    requires m > 0
    ensures (x % m - y % m) % m == (x - y) % m
  {
    DivModFacts(x, m);
    DivModFacts(y, m);
    assert x - y == (x % m - y % m) + (x / m - y / m) * m;
    ModOfMultiple(x % m - y % m, x / m - y / m, m);
  }

  /** What one call computes from the time since the last whole second it accounted for. */
  lemma SecStepMeaning(st: Sec, t0: nat, t: nat)
    requires InStep(st, t0) && t0 <= t
    ensures var d := t - t0 / 1000 * 1000;
            var k := (d % T32) / 1000;
            SecStep(st, t % T32) == Sec((t0 / 1000 * 1000 + k * 1000) % T32, (t0 / 1000 + k) % T32)
  {
    SubMod(t, t0 / 1000 * 1000, T32);
    var k := ((t - t0 / 1000 * 1000) % T32) / 1000;
    AddMod(t0 / 1000 * 1000, k * 1000, T32);
    AddMod(t0 / 1000, k, T32);
  }

  /** One call is right when less than 2^32 ms have passed since that second. */
  lemma SecStepRight(st: Sec, t0: nat, t: nat)
    requires InStep(st, t0) && t0 <= t && t - t0 / 1000 * 1000 < T32
    ensures InStep(SecStep(st, t % T32), t)
  {
    SecStepMeaning(st, t0, t);
    var d := t - t0 / 1000 * 1000;
    DivModUnique(d, T32, 0, d);
    assert t0 / 1000 + d / 1000 == t / 1000;
  }

  /** And only then, for gaps below 998 turns of the counter. */
  lemma SecStepWrong(st: Sec, t0: nat, t: nat)
    requires InStep(st, t0) && t0 <= t && T32 <= t - t0 / 1000 * 1000 < 998 * T32
    ensures SecStep(st, t % T32).currentS != (t / 1000) % T32
  {
    SecStepMeaning(st, t0, t);
    var d := t - t0 / 1000 * 1000;
    DivModFacts(d, T32);
    var q, e := d / T32, d % T32;
    assert t / 1000 == t0 / 1000 + d / 1000;
    var x, y := t0 / 1000 + e / 1000, t0 / 1000 + d / 1000;
    assert 1 <= q <= 997;
    assert 0 < y - x < T32;
    DifferentRemainders(x, y, T32);
  }

  lemma DifferentRemainders(x: int, y: int, m: int)
    requires 0 < y - x < m
    ensures x % m != y % m
  {
    DivModFacts(x, m);
    DivModFacts(y, m);
    if x % m == y % m {
      var k := y / m - x / m;
      assert y - x == k * m;
      if k <= 0 { MulMonotone(k, 0, m); } else { MulMonotone(1, k, m); }
    }
  }

  function SecRun(st: Sec, calls: seq<nat>): Sec
    decreases |calls|
  {
    if calls == [] then st else SecRun(SecStep(st, calls[0] % T32), calls[1..])
  }

  /** Calls in order, never more than 2^32 - 1000 ms apart. */
  predicate CallsOftenEnough(t0: nat, calls: seq<nat>)
    decreases |calls|
  {
    calls == [] || (t0 <= calls[0] <= t0 + T32 - 1000 && CallsOftenEnough(calls[0], calls[1..]))
  }

  /** Every value returned is floor(T / 1000) modulo 2^32, across any number of wraps. */
  lemma {:induction false} SecondsAreTrue(st: Sec, t0: nat, calls: seq<nat>)
    requires InStep(st, t0) && CallsOftenEnough(t0, calls) && calls != []
    ensures InStep(SecRun(st, calls), calls[|calls| - 1])
    decreases |calls|
  {
    SecStepRight(st, t0, calls[0]);
    if |calls| > 1 {
      SecondsAreTrue(SecStep(st, calls[0] % T32), calls[0], calls[1..]);
    }
  }

  /** From power-on the first call may come any time before 2^32 ms. */
  lemma SecondsFromStart(calls: seq<nat>)
    requires calls != [] && calls[0] < T32 && CallsOftenEnough(calls[0], calls[1..])
    ensures InStep(SecRun(Sec(0, 0), calls), calls[|calls| - 1])
  {
    SecStepRight(Sec(0, 0), 0, calls[0]);
    if |calls| > 1 {
      SecondsAreTrue(SecStep(Sec(0, 0), calls[0] % T32), calls[0], calls[1..]);
    }
  }

  // ---------------------------------------------------------------- tick interrupts

  /** The EFM32 tick counters. */
  class SysTick {
    var msTicks: nat
    var sTicks: nat
    var sTickCheck: nat

    ghost predicate After(n: nat)
      reads this
    {
      msTicks == n % T32 && sTicks == (n / 1000) % T32 && sTickCheck == n % 1000
    }

    constructor ()
      ensures After(0)
    {
      msTicks, sTicks, sTickCheck := 0, 0, 0;
    }

    /** SysTick_Handler. */
    method Tick(ghost n: nat)
      requires After(n)
      modifies this
      ensures After(n + 1)
    {
      AddMod(n, 1, T32);
      AddMod(n / 1000, 1, T32);
      msTicks := (msTicks + 1) % T32;
      sTickCheck := sTickCheck + 1;
      if sTickCheck == 1000 {
        sTickCheck := 0;
        sTicks := (sTicks + 1) % T32;
      }
    }
  }

  /** Seconds counted by the mbed interrupt in n ticks: a wrap of the millisecond counter counts
      as a second, so each turn of 2^32 ms adds 4294968. */
  function MbedSeconds(n: nat): nat
  {
    (n / T32) * 4294968 + (n % T32) / 1000
  }

  lemma MbedTick(n: nat)
    ensures (n + 1) % T32 == (n % T32 + 1) % T32
    ensures MbedSeconds(n + 1) == MbedSeconds(n) + (if (n + 1) % T32 % 1000 == 0 then 1 else 0)
  {
    AddMod(n, 1, T32);
    DivModFacts(n, T32);
    var q, r := n / T32, n % T32;
    if r + 1 < T32 {
      DivModUnique(n + 1, T32, q, r + 1);
    } else {
      DivModUnique(n + 1, T32, q + 1, 0);
    }
  }

  /** The mbed tick counters. */
  class MsTimer {
    var msTimer: nat
    var secTimer: nat

    ghost predicate After(n: nat)
      reads this
    {
      msTimer == n % T32 && secTimer == MbedSeconds(n) % T32
    }

    constructor ()
      ensures After(0)
    {
      msTimer, secTimer := 0, 0;
    }

    /** mstimer_isr. */
    method Isr(ghost n: nat)
      requires After(n)
      modifies this
      ensures After(n + 1)
    {
      MbedTick(n);
      AddMod(MbedSeconds(n), 1, T32);
      msTimer := (msTimer + 1) % T32;
      if msTimer % 1000 == 0 {
        secTimer := (secTimer + 1) % T32;
      }
    }
  }

  /** Both platforms run from the same start for n ticks. */
  method RunTicks(n: nat) returns (efmMs: nat, efmS: nat, mbedMs: nat, mbedS: nat)
    ensures efmMs == mbedMs == n % T32
    ensures efmS == (n / 1000) % T32
    ensures mbedS == MbedSeconds(n) % T32
    ensures n < T32 ==> efmS == mbedS
    ensures n == T32 ==> mbedS == efmS + 1
  {
    var a := new SysTick();
    var b := new MsTimer();
    for i := 0 to n
      invariant a.After(i) && b.After(i)
    {
      a.Tick(i);
      b.Isr(i);
    }
    efmMs, efmS, mbedMs, mbedS := a.msTicks, a.sTicks, b.msTimer, b.secTimer;
    SameFirstTurn(n);
  }

  lemma SameFirstTurn(n: nat)
    ensures n < T32 ==> MbedSeconds(n) == n / 1000
    ensures n == T32 ==> MbedSeconds(n) == n / 1000 + 1
  {
    if n < T32 {
      DivModUnique(n, T32, 0, n);
    }
  }
}
