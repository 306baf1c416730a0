/** `System.TimeSpan` as a tick count, its clock components, and a reader
    for the colon-separated clock texts the program prints. */
module Clock {
  import opened Common
  import opened Text

  const TicksPerMillisecond: int := 10_000
  const TicksPerSecond: int := 10_000_000
  const TicksPerMinute: int := 600_000_000
  const TicksPerHour: int := 36_000_000_000
  const TicksPerDay: int := 864_000_000_000

  /** A time interval counted in 100-nanosecond ticks. The component
      properties truncate toward zero, as the C# operators do. */
  datatype TimeSpan = TimeSpan(ticks: int)
  {
    function Days(): int
    {
      TruncDiv(ticks, TicksPerDay)
    }

    function Hours(): int
    {
      TruncMod(TruncDiv(ticks, TicksPerHour), 24)
    }

    function Minutes(): int
    {
      TruncMod(TruncDiv(ticks, TicksPerMinute), 60)
    }

    function Seconds(): int
    {
      TruncMod(TruncDiv(ticks, TicksPerSecond), 60)
    }

    /** `(int)TotalHours`: the whole hours of the interval, not wrapped at a day. */
    function WholeHours(): int
    {
      TruncDiv(ticks, TicksPerHour)
    }

    function TotalMilliseconds(): real
    {
      ticks as real / TicksPerMillisecond as real
    }
  }

  const Zero: TimeSpan := TimeSpan(0)

  function FromMilliseconds(ms: int): TimeSpan
  {
    TimeSpan(ms * TicksPerMillisecond)
  }

  // ------------------------------------------------------------ arithmetic

  lemma TruncOfNonNegative(a: int, b: int)
    requires a >= 0 && b > 0
    ensures TruncDiv(a, b) == a / b && TruncMod(a, b) == a % b
  {
  }

  /** Truncating twice is truncating by the product, whatever the sign. */
  lemma TruncDivDiv(a: int, b: int, c: int)
    requires b > 0 && c > 0
    ensures TruncDiv(TruncDiv(a, b), c) == TruncDiv(a, b * c)
  {
    var bc := b * c;
    assert bc > 0 by { MulAtLeast(c, b); }
    if a >= 0 {
      DivDiv(a, b, c);
      TruncOfNonNegative(a, b);
      TruncOfNonNegative(a / b, c);
      TruncOfNonNegative(a, bc);
    } else {
      var n := -a;
      var x := n / b;
      DivDiv(n, b, c);
      TruncOfNegative(a, b);
      TruncOfNegative(a, bc);
      TruncOfNegative(-x, c);
    }
  }

  lemma TruncOfNegative(a: int, b: int)
    requires a <= 0 && b > 0
    ensures TruncDiv(a, b) == -((-a) / b)
  {
  }

  /** Scaling both operands by k > 0 keeps the truncated quotient. */
  lemma TruncDivScale(a: int, b: int, k: int)
    requires b > 0 && k > 0
    ensures TruncDiv(a * k, b * k) == TruncDiv(a, b)
  {
    if a >= 0 {
      DivScale(a, b, k);
    } else {
      DivScale(-a, b, k);
      assert -(a * k) == (-a) * k;
    }
  }

  lemma TruncDivExact(q: int, b: int)
    requires b > 0
    ensures TruncDiv(q * b, b) == q
  {
    if q >= 0 {
      DivUnique(q * b, b, q, 0);
    } else {
      DivUnique((-q) * b, b, -q, 0);
    }
  }

  // ------------------------------------------------------------ components

  /** The clock components of a non-negative interval are its Euclidean
      digits in the mixed radix day/hour/minute/second, and they add back up
      to the interval. */
  lemma ClockParts(t: TimeSpan)
    requires t.ticks >= 0
    ensures t.Hours() == (t.ticks / TicksPerHour) % 24
    ensures t.Minutes() == (t.ticks / TicksPerMinute) % 60
    ensures t.Seconds() == (t.ticks / TicksPerSecond) % 60
    ensures t.WholeHours() == t.ticks / TicksPerHour
    ensures 0 <= t.Hours() < 24 && 0 <= t.Minutes() < 60 && 0 <= t.Seconds() < 60
    ensures t.ticks == t.Days() * TicksPerDay + t.Hours() * TicksPerHour + t.Minutes() * TicksPerMinute
                       + t.Seconds() * TicksPerSecond + t.ticks % TicksPerSecond
  {
    var v := t.ticks;
    var S, M, H, D := v / TicksPerSecond, v / TicksPerMinute, v / TicksPerHour, v / TicksPerDay;
    TruncOfNonNegative(v, TicksPerSecond);
    TruncOfNonNegative(v, TicksPerMinute);
    TruncOfNonNegative(v, TicksPerHour);
    TruncOfNonNegative(v, TicksPerDay);
    TruncOfNonNegative(S, 60);
    TruncOfNonNegative(M, 60);
    TruncOfNonNegative(H, 24);
    DivDiv(v, TicksPerSecond, 60);
    DivDiv(v, TicksPerMinute, 60);
    DivDiv(v, TicksPerHour, 24);
    assert S == M * 60 + S % 60;
    assert M == H * 60 + M % 60;
    assert H == D * 24 + H % 24;
    assert v == S * TicksPerSecond + v % TicksPerSecond;
  }

  /** `TimeSpan.FromMilliseconds(ms)` has the components of ms itself, counted
      in milliseconds. */
  lemma MillisecondParts(ms: int)
    ensures FromMilliseconds(ms).Hours() == TruncMod(TruncDiv(ms, 3_600_000), 24)
    ensures FromMilliseconds(ms).Minutes() == TruncMod(TruncDiv(ms, 60_000), 60)
    ensures FromMilliseconds(ms).Seconds() == TruncMod(TruncDiv(ms, 1000), 60)
    ensures FromMilliseconds(ms).WholeHours() == TruncDiv(ms, 3_600_000)
  {
    TruncDivScale(ms, 3_600_000, TicksPerMillisecond);
    TruncDivScale(ms, 60_000, TicksPerMillisecond);
    TruncDivScale(ms, 1000, TicksPerMillisecond);
  }

  /** The clock components of a millisecond count do not see its sub-second part. */
  lemma WholeSecondParts(ms: int)
    ensures var w := TruncDiv(ms, 1000) * 1000;
            && TruncDiv(w, 1000) == TruncDiv(ms, 1000)
            && TruncDiv(w, 60_000) == TruncDiv(ms, 60_000)
            && TruncDiv(w, 3_600_000) == TruncDiv(ms, 3_600_000)
  {
    var q := TruncDiv(ms, 1000);
    var w := q * 1000;
    TruncDivExact(q, 1000);
    TruncDivDiv(w, 1000, 60);
    TruncDivDiv(ms, 1000, 60);
    TruncDivDiv(w, 1000, 3600);
    TruncDivDiv(ms, 1000, 3600);
  }

  // ------------------------------------------------------------ reading clocks

  /** Reads a list of decimal fields; None when a field is empty or holds a non-digit. */
  function ReadNumbers(fields: seq<string>): Option<seq<int>>
    decreases |fields|
  {
    if fields == [] then Some([])
    else if |fields[0]| > 0 && AllDigits(fields[0]) then
      match ReadNumbers(fields[1..])
      case None => None
      case Some(rest) => Some([DigitsValue(fields[0]) as int] + rest)
    else None
  }

  /** Reads a clock text such as "01:02:03" back into its numbers. */
  function ReadClock(s: string): Option<seq<int>>
  {
    ReadNumbers(Split(s, ':'))
  }

  lemma DigitsHaveNoColon(s: string)
    requires AllDigits(s)
    ensures ':' !in s
  {
  }

  lemma ReadNumbersCons(f: string, rest: seq<string>)
    requires |f| > 0 && AllDigits(f) && ReadNumbers(rest).Some?
    ensures ReadNumbers([f] + rest) == Some([DigitsValue(f) as int] + ReadNumbers(rest).value)
  {
    assert ([f] + rest)[1..] == rest;
  }

  lemma ReadOneField(b: nat)
    ensures ReadNumbers([Pad2(b)]) == Some([b as int])
  {
    var pb := Pad2(b);
    assert DigitsValue(pb) == b;
    ReadNumbersCons(pb, []);
    assert [pb] + [] == [pb];
    assert [DigitsValue(pb) as int] + [] == [b as int];
  }

  /** A two-field clock text reads back as its two numbers. */
  lemma ReadTwoFields(a: nat, b: nat)
    ensures ReadClock(Pad2(a) + ":" + Pad2(b)) == Some([a as int, b as int])
  {
    var pa, pb := Pad2(a), Pad2(b);
    DigitsHaveNoColon(pa);
    DigitsHaveNoColon(pb);
    assert pa + ":" + pb == pa + [':'] + pb;
    SplitAt(pa, pb, ':');
    SplitWithout(pb, ':');
    assert Split(pa + ":" + pb, ':') == [pa] + [pb];
    ReadOneField(b);
    assert DigitsValue(pa) == a;
    ReadNumbersCons(pa, [pb]);
    assert ReadNumbers([pa] + [pb]) == Some([a as int] + [b as int]);
    assert [a as int] + [b as int] == [a as int, b as int];
  }

  /** A three-field clock text reads back as its three numbers. */
  lemma ReadThreeFields(a: nat, b: nat, c: nat)
    ensures ReadClock(Pad2(a) + ":" + Pad2(b) + ":" + Pad2(c)) == Some([a as int, b as int, c as int])
  {
    var pa := Pad2(a);
    var rest := Pad2(b) + ":" + Pad2(c);
    DigitsHaveNoColon(pa);
    assert Pad2(a) + ":" + Pad2(b) + ":" + Pad2(c) == pa + [':'] + rest;
    SplitAt(pa, rest, ':');
    ReadTwoFields(b, c);
    assert DigitsValue(pa) == a;
    ReadNumbersCons(pa, Split(rest, ':'));
    assert [a as int] + [b as int, c as int] == [a as int, b as int, c as int];
  }
}
