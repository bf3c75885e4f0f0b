/** jsll_udecstr and jsll_decstr: decimal strings of 64-bit numbers, four digits per division. */
module JsDecimal {
  import opened Arith
  import opened JsLong
  import opened JsDivide

  /** x followed by n decimal zeros. */
  function Shifted(n: nat, x: int): int { if n == 0 then x else 10 * Shifted(n - 1, x) }

  lemma {:induction false} ShiftedAdd(n: nat, x: int, y: int)
    ensures Shifted(n, x + y) == Shifted(n, x) + Shifted(n, y)
  {
    if n > 0 {
      ShiftedAdd(n - 1, x, y);
    }
  }

  lemma {:induction false} ShiftedTen(n: nat, x: int)
    ensures Shifted(n + 1, x) == Shifted(n, 10 * x)
  {
    if n > 0 {
      ShiftedTen(n - 1, x);
    }
  }

  lemma ShiftedFour(n: nat, x: int)
    ensures Shifted(n + 4, x) == Shifted(n, 10000 * x)
  {
    ShiftedTen(n + 3, x);
    ShiftedTen(n + 2, 10 * x);
    ShiftedTen(n + 1, 100 * x);
    ShiftedTen(n, 1000 * x);
  }

  lemma {:induction false} ShiftedMonotone(m: nat, n: nat, x: int, y: int)
    requires m <= n && 0 <= x <= y
    ensures 0 <= Shifted(m, x) <= Shifted(n, y)
  {
    if m > 0 {
      ShiftedMonotone(m - 1, n - 1, x, y);
    } else if n > 0 {
      ShiftedMonotone(m, n - 1, x, y);
    }
  }

  lemma {:induction false} ShiftedZero(n: nat)
    ensures Shifted(n, 0) == 0
  {
    if n > 0 {
      ShiftedZero(n - 1);
    }
  }

  /** The number a digit string denotes, most significant digit first. */
  function Parse(s: string): int
  {
    if s == "" then 0 else 10 * Parse(s[..|s| - 1]) + (s[|s| - 1] as int - '0' as int)
  }

  /** A string of digits, least significant first, as the routine fills its buffer. */
  function Low(s: seq<char>): int
  {
    if s == [] then 0 else (s[0] as int - '0' as int) + 10 * Low(s[1..])
  }

  predicate Digits(s: seq<char>) { forall i :: 0 <= i < |s| ==> '0' <= s[i] <= '9' }

  function Reversed(s: seq<char>): (r: seq<char>)
    ensures |r| == |s|
  {
    if s == [] then [] else Reversed(s[1..]) + [s[0]]
  }

  lemma {:induction false} ParseReversed(s: seq<char>)
    ensures Parse(Reversed(s)) == Low(s)
    ensures Digits(s) ==> Digits(Reversed(s))
    ensures s != [] ==> Reversed(s)[0] == s[|s| - 1]
  {
    if s != [] {
      ParseReversed(s[1..]);
      assert Reversed(s)[..|s| - 1] == Reversed(s[1..]);
      if |s| == 1 {
        assert Reversed(s[1..]) == [];
      }
    }
  }

  lemma {:induction false} LowSnoc(s: seq<char>, c: char)
    ensures Low(s + [c]) == Low(s) + Shifted(|s|, c as int - '0' as int)
  {
    if s == [] {
      assert s + [c] == [c] && [c][1..] == [];
    } else {
      LowSnoc(s[1..], c);
      assert (s + [c])[1..] == s[1..] + [c];
    }
  }

  lemma {:induction false} LowBound(s: seq<char>)
    requires Digits(s)
    ensures 0 <= Low(s)
  {
    if s != [] {
      assert '0' <= s[0] <= '9';
      LowBound(s[1..]);
    }
  }

  /** Appending one digit of rem moves value from rem into the string. */
  lemma AppendDigit(p: seq<char>, rem: nat, c: char)
    requires c as int == '0' as int + rem % 10
    ensures Low(p + [c]) + Shifted(|p| + 1, rem / 10) == Low(p) + Shifted(|p|, rem)
  {
    LowSnoc(p, c);
    DigitMoved(|p|, rem, rem % 10, rem / 10);
  }

  lemma DigitMoved(n: nat, rem: int, digit: int, rest: int)
    requires rem == digit + 10 * rest
    ensures Shifted(n, digit) + Shifted(n + 1, rest) == Shifted(n, rem)
  {
    ShiftedTen(n, rest);
    ShiftedAdd(n, digit, 10 * rest);
  }

  /** The inner loop: four digits, or only the significant ones when no chunk follows. */
  method Chunk(p: seq<char>, rem: nat, fill: bool) returns (p': seq<char>)
    requires rem < 10000 && Digits(p)
    ensures Digits(p') && |p| <= |p'| <= |p| + 4 && p'[..|p|] == p
    ensures fill ==> |p'| == |p| + 4
    ensures Low(p') == Low(p) + Shifted(|p|, rem)
    ensures !fill && rem > 0 ==> |p'| > |p| && p'[|p'| - 1] != '0'
  {
    p' := p;
    var rem16 := rem;
    var i := 4;
    assert p[..|p|] == p;
    while i > 0 && (fill || rem16 > 0)
      invariant 0 <= i <= 4 && |p'| == |p| + 4 - i && p'[..|p|] == p && Digits(p')
      invariant i == 4 ==> rem16 == rem
      invariant rem16 < [1, 10, 100, 1000, 10000][i]
      invariant Low(p') + Shifted(|p'|, rem16) == Low(p) + Shifted(|p|, rem)
      invariant !fill && rem > 0 && rem16 == 0 ==> |p'| > |p| && p'[|p'| - 1] != '0'
    {
      var c := ('0' as int + rem16 % 10) as char;
      AppendDigit(p', rem16, c);
      p' := p' + [c];
      rem16 := rem16 / 10;
      i := i - 1;
    }
    assert rem16 == 0;
    ShiftedZero(|p'|);
  }

  lemma TwentyZeros()
    ensures Shifted(20, 1) > W64
  {
    ShiftedFour(16, 1);
    ShiftedFour(12, 10000);
    ShiftedFour(8, 100000000);
    ShiftedFour(4, 1000000000000);
    ShiftedFour(0, 10000000000000000);
  }

  /** What is in the string and what is left to convert make v. */
  ghost predicate Converting(temp: seq<char>, quot: int, v: int)
  {
    && Digits(temp) && |temp| <= 20
    && Low(temp) + Shifted(|temp|, quot) == v
    && (quot > 0 ==> |temp| % 4 == 0)
    && (quot == 0 ==> temp != [] && temp[|temp| - 1] != '0' && Low(temp) == v)
  }

  lemma StartConverting(v: int)
    requires v > 0
    ensures Converting([], v, v)
  {
  }

  /** The digits of v > 0, least significant first. */
  method LowDigits(v: U64) returns (temp: seq<char>)
    requires v.Value() > 0
    ensures Converting(temp, 0, v.Value())
  {
    StartConverting(v.Value());
    var quot := v;
    temp := [];
    var fill := true;
    while fill
      invariant Converting(temp, quot.Value(), v.Value())
      invariant fill <==> quot.Value() > 0
      decreases quot.Value()
    {
      quot, temp, fill := NextChunk(quot, temp, v.Value());
    }
  }

  /** One turn of the do loop: divide by 10000 and convert the remainder. */
  method NextChunk(quot: U64, p: seq<char>, ghost v: int) returns (quot': U64, p': seq<char>, fill: bool)
    requires quot.Value() > 0 && Converting(p, quot.Value(), v) && v < W64
    ensures fill <==> quot'.Value() > 0
    ensures quot'.Value() < quot.Value()
    ensures Converting(p', quot'.Value(), v)
  {
    var rem: nat;
    quot', rem := DivideBy10000(quot);
    fill := !(quot'.hi == 0 && quot'.lo == 0);
    p' := Chunk(p, rem, fill);
    StillConverting(p, p', quot.Value(), quot'.Value(), rem, v);
  }

  /** One division by 10000 moves four digits from the quotient to the string. */
  lemma StillConverting(p: seq<char>, p': seq<char>, quot: int, q: int, rem: int, v: int)
    requires quot > 0 && Converting(p, quot, v) && v < W64
    requires q >= 0 && quot == q * 10000 + rem && Low(p') == Low(p) + Shifted(|p|, rem)
    requires Digits(p') && |p'| <= |p| + 4 && (q > 0 ==> |p'| == |p| + 4)
    requires q == 0 ==> p' != [] && p'[|p'| - 1] != '0'
    ensures Converting(p', q, v)
  {
    RoomForChunk(p, quot, v);
    AccountKept(|p|, |p'|, Low(p), Low(p'), quot, q, rem);
    assert Digits(p') && |p'| <= 20;
  }

  lemma AccountKept(n: nat, n': nat, low: int, low': int, quot: int, q: int, rem: int)
    requires q >= 0 && quot == q * 10000 + rem && low' == low + Shifted(n, rem)
    requires q > 0 ==> n' == n + 4
    ensures low' + Shifted(n', q) == low + Shifted(n, quot)
    ensures q == 0 ==> low' == low + Shifted(n, quot)
  {
    if q == 0 {
      ShiftedZero(n');
    } else {
      ShiftedAdd(n, 10000 * q, rem);
      ShiftedFour(n, q);
    }
  }

  method DivideBy10000(quot: U64) returns (q: U64, rem: nat)
    requires quot.Value() > 0
    ensures quot.Value() == q.Value() * 10000 + rem && rem < 10000 && q.Value() < quot.Value()
  {
    var divisor := U64(0, 10000);
    var r: U64;
    q, r := UDivMod(quot, divisor);
    DivModFacts(quot.Value(), 10000);
    rem := r.lo;
  }

  /** While something is left to convert, four more digits fit the 20-character buffer. */
  lemma RoomForChunk(p: seq<char>, quot: int, v: int)
    requires quot > 0 && Converting(p, quot, v) && v < W64
    ensures |p| <= 16 && |p| % 4 == 0
  {
    LowBound(p);
    TwentyZeros();
    if |p| >= 20 {
      ShiftedMonotone(20, |p|, 1, quot);
    }
  }

  /** jsll_udecstr: the decimal string of v, without leading zeros, of at most 20 digits. */
  method UDecStr(v: U64) returns (buffer: string)
    ensures Digits(buffer) && Parse(buffer) == v.Value()
    ensures 0 < |buffer| <= 20
    ensures buffer[0] == '0' <==> v.Value() == 0
    ensures v.Value() == 0 ==> buffer == "0"
  {
    if v.hi == 0 && v.lo == 0 {
      assert Parse(""+ "0") == 0;
      return "0";
    }
    var temp := LowDigits(v);
    ParseReversed(temp);
    buffer := CopyBackwards(temp);
  }

  /** The digits are put in reading order. */
  method CopyBackwards(temp: seq<char>) returns (buffer: string)
    ensures buffer == Reversed(temp)
  {
    buffer := "";
    var p := |temp|;
    assert temp[|temp|..] == [];
    while p > 0
      invariant 0 <= p <= |temp| && buffer == Reversed(temp[p..])
    {
      p := p - 1;
      assert temp[p..][1..] == temp[p + 1..];
      buffer := buffer + [temp[p]];
    }
    assert temp[0..] == temp;
  }

  /** jsll_decstr: a sign, if negative, and the digits of the magnitude. */
  method DecStr(v: U64) returns (buffer: string)
    ensures buffer != "" && (buffer[0] == '-' <==> v.SignedValue() < 0)
    ensures v.SignedValue() >= 0 ==> Digits(buffer) && Parse(buffer) == v.SignedValue()
    ensures v.SignedValue() < 0 ==> Digits(buffer[1..]) && Parse(buffer[1..]) == -v.SignedValue()
    ensures v.SignedValue() >= 0 ==> (buffer[0] == '0' <==> buffer == "0")
    ensures v.SignedValue() < 0 ==> |buffer| > 1 && buffer[1] != '0'
    ensures |buffer| <= 20
  {
    if Signed(v.hi) < 0 {
      var abs := AbsPair(v);
      var digits := UDecStr(abs);
      buffer := "-" + digits;
      assert buffer[1..] == digits;
      SignFits(digits, abs);
    } else {
      buffer := UDecStr(v);
    }
  }

  /** A magnitude of at most 2^63 has at most 19 digits. */
  lemma SignFits(s: string, v: U64)
    requires Digits(s) && 0 < |s| <= 20 && s[0] != '0' && Parse(s) == v.Value() <= HALF * W
    ensures |s| <= 19
  {
    ParseBound(s);
    NineteenZeros();
  }

  lemma NineteenZeros()
    ensures Shifted(19, 1) > HALF * W
  {
    ShiftedFour(15, 1);
    ShiftedFour(11, 10000);
    ShiftedFour(7, 100000000);
    ShiftedFour(3, 1000000000000);
    ShiftedTen(2, 10000000000000000);
    ShiftedTen(1, 100000000000000000);
    ShiftedTen(0, 1000000000000000000);
  }

  lemma {:induction false} ParseBound(s: string)
    requires Digits(s) && |s| > 0 && s[0] != '0'
    ensures Parse(s) >= Shifted(|s| - 1, 1)
  {
    var t := s[..|s| - 1];
    assert '0' <= s[|s| - 1] <= '9';
    if |s| == 1 {
      assert t == "";
    } else {
      ParseBound(t);
    }
  }
}
