/** xbee_ser_baudrate of the DOS serial port: a divisor latch of 115200 and the rate it gives. */
module DosBaud {
  import opened Arith
  import opened Platform

  const N: int := 115200

  /** The request after the range check. */
  function Clamp(b: int): (c: int)
    ensures 1 <= c <= N
  {
    if b > N || b < 1 then N else b
  }

  /** The divisor: requests below 115 name it directly, others are a rate. */
  function Divisor(b: int): (d: int)
    ensures 1 <= d <= 1001
  {
    DivisorRange(Clamp(b));
    var c := Clamp(b);
    if c < 115 then c else N / c
  }

  function Rate(b: int): int { N / Divisor(b) }

  lemma DivisorRange(c: int)
    requires 1 <= c <= N
    ensures c >= 115 ==> 1 <= N / c <= 1001
  {
    DivModFacts(N, c);
    if c >= 115 {
      if N / c >= 1002 { MulMonotone(1002, N / c, c); }
      if N / c < 1 { MulMonotone(N / c, 0, c); }
    }
  }

  lemma LatchBytes(d: int)
    requires 0 <= d < T16
    ensures 0 <= d % 256 < 256 && 0 <= d / 256 < 256 && d / 256 * 256 + d % 256 == d
  {
  }

  /** The divisor without a division: a request below 115 itself, 1 for one out of range, and
      otherwise the most whole times the rate goes into the clock. The rate is the most whole times
      the divisor does. */
  predicate Chosen(b: int, latch: int, rate: int)
  {
    && (1 <= b < 115 ==> latch == b)
    && (b < 1 || b > N ==> latch == 1 && rate == N)
    && (115 <= b <= N ==> latch * b <= N < (latch + 1) * b)
    && rate * latch <= N < (rate + 1) * latch
  }

  lemma DivisorIsChosen(b: int)
    ensures Chosen(b, Divisor(b), Rate(b))
  {
    var c := Clamp(b);
    DivModFacts(N, c);
    MulDistrib(c, N / c, 1);
    DivModFacts(N, Divisor(b));
    MulDistrib(Divisor(b), Rate(b), 1);
    DivModUnique(N, N, 1, 0);
    DivModUnique(N, 1, N, 0);
  }

  class Serial {
    var baudrate: int
    var dll: int    // divisor latch, low and high byte
    var dlm: int
  }

  /** xbee_ser_baudrate. */
  method Baudrate(serial: Serial?, b: int) returns (ret: int)
    requires 0 <= b < T32
    modifies if serial == null then {} else {serial}
    ensures ret == (if serial == null then -EINVAL else 0)
    ensures serial != null ==>
      && serial.baudrate == Rate(b)
      && 0 <= serial.dll < 256 && 0 <= serial.dlm < 256 && serial.dlm * 256 + serial.dll == Divisor(b)
      && Chosen(b, serial.dlm * 256 + serial.dll, serial.baudrate)
  {
    DivisorIsChosen(b);
    if serial == null {
      return -EINVAL;
    }
    var rate := b;
    if rate > N || rate < 1 {
      rate := N;
    }
    var div: int;
    if rate < 115 {
      div := U16(rate);
    } else {
      div := U16(N / rate);
    }
    assert div == Divisor(b);
    LatchBytes(div);
    serial.baudrate := N / div;
    serial.dll := div % 256;
    serial.dlm := div / 256;
    ret := 0;
  }

  /** Asking again for the rate that was stored changes nothing. */
  method BaudrateTwice(serial: Serial, b: int)
    requires 0 <= b < T32
    modifies serial
    ensures serial.baudrate == Rate(b) && serial.dlm * 256 + serial.dll == Divisor(b)
  {
    Idempotent(b);
    var first := Baudrate(serial, b);
    var second := Baudrate(serial, serial.baudrate);
  }

  /** Nested floors: dividing by the quotient of a quotient gives the quotient back. */
  lemma NestedFloor(n: int, b: int)
    requires 1 <= b <= n
    ensures n / b >= 1 && n / (n / b) >= b && n / (n / (n / b)) == n / b
  {
    DivModFacts(n, b);
    var d := n / b;
    if d < 1 { MulMonotone(d, 0, b); }
    QuotientAtLeast(n, d, b);
    var r := n / d;
    QuotientAtLeast(n, r, d) by { DivModFacts(n, d); }
    DivModFacts(n, r);
    if n / r > d {
      MulMonotone(d + 1, n / r, r);
      MulMonotone(b, r, d + 1);
      MulDistrib(b, d, 1);
    }
  }

  lemma QuotientAtLeast(n: int, d: int, b: int)
    requires d >= 1 && d * b <= n
    ensures n / d >= b
  {
    DivModFacts(n, d);
    if n / d < b {
      MulMonotone(n / d + 1, b, d);
      MulDistrib(d, n / d, 1);
    }
  }

  /** A small divisor is the quotient of its own quotient. */
  lemma SmallDivisor(n: int, b: int)
    requires 1 <= b && b * b <= n
    ensures n / (n / b) == b
  {
    DivModFacts(n, b);
    var r := n / b;
    QuotientAtLeast(n, b, b);
    MulPositive(1, 1);
    DivModUnique(n, r, b, n % b);
  }

  /** For every request: the stored rate gives the same divisor and itself. */
  lemma Idempotent(b: int)
    ensures 115 <= Rate(b) <= N
    ensures Divisor(Rate(b)) == Divisor(b) && Rate(Rate(b)) == Rate(b)
  {
    var c := Clamp(b);
    DivisorRange(c);
    RateRange(Divisor(b));
    if c < 115 {
      MulMonotone(c, 114, c);
      SmallDivisor(N, c);
    } else {
      NestedFloor(N, c);
    }
  }

  lemma RateRange(d: int)
    requires 1 <= d <= 1001
    ensures 115 <= N / d <= N
  {
    DivModFacts(N, d);
    if N / d < 115 { MulMonotone(N / d, 114, d); }
    if N / d > N { MulMonotone(1, d, N / d); }
  }

  /** The rate for a requested rate: never below it, less than twice it, and above it by exactly
      the remainder shared out over the divisor. */
  lemma RateForRequest(b: int)
    requires 115 <= b <= N
    ensures Rate(b) == b + (N % b) / (N / b)
    ensures b <= Rate(b) < 2 * b
  {
    DivisorRange(b);
    DivModFacts(N, b);
    var d, m := N / b, N % b;
    DivModFacts(m, d);
    assert N == (b + m / d) * d + m % d by { MulDistrib(d, b, m / d); }
    DivModUnique(N, d, b + m / d, m % d);
    if m / d < 0 { MulMonotone(m / d, -1, d); }
    if m / d > m { MulMonotone(1, d, m / d); }
  }

  predicate Within5Percent(rate: int, b: int) { 20 * rate <= 21 * b && 20 * rate >= 19 * b }

  /** When a request is served within the documented 5 percent: a rate from 115 on if the
      shared-out remainder is at most a twentieth of it, a rate above the clock if that is not more
      than a nineteenth too high, and nothing else. */
  predicate Served(b: int)
  {
    (115 <= b <= N && 20 * ((N % b) / (N / b)) <= b) || (N < b && 19 * b <= 20 * N)
  }

  lemma FivePercent(b: int)
    requires 0 <= b < T32
    ensures Within5Percent(Rate(b), b) <==> Served(b)
    ensures 115 <= b <= 5760 ==> Served(b)
    ensures 115 <= b <= N && N % b == 0 ==> Rate(b) == b
  {
    if 115 <= b <= N {
      RequestedRate(b);
    } else if 1 <= b < 115 {
      RateOfDivisor(b);
    } else {
      DivModUnique(N, 1, N, 0);
      DivModUnique(N, N, 1, 0);
    }
  }

  /** Requests below 115 name a divisor, and get more than eight times the rate they look like. */
  lemma RateOfDivisor(b: int)
    requires 1 <= b < 115
    ensures Rate(b) > 8 * b
  {
    DivModFacts(N, b);
    if N / b <= 8 * b {
      MulMonotone(N / b, 920, b);
    }
  }

  lemma RequestedRate(b: int)
    requires 115 <= b <= N
    ensures Within5Percent(Rate(b), b) <==> Served(b)
    ensures b <= 5760 ==> Served(b)
    ensures N % b == 0 ==> Rate(b) == b
  {
    RateForRequest(b);
    DivModFacts(N, b);
    var d, m := N / b, N % b;
    DivModFacts(m, d);
    if b <= 5760 {
      if d < 20 { MulMonotone(d, 19, b); }
      if m / d >= 0 { MulMonotone(20, d, m / d); }
    }
    if m == 0 {
      DivModUnique(0, d, 0, 0);
    }
  }

  /** 80000 is served with 115200. */
  lemma FivePercentFails()
    ensures Rate(80000) == 115200 && !Within5Percent(Rate(80000), 80000)
  {
  }
}
