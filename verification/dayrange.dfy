/** The day range of one run (main.go:30-38) and the day loop over it
    (main.go:59).

    Instants are integer nanosecond ticks, the unit of Go's `time.Duration`.
    The clock is read twice, once for the start and once for the end, so the
    model takes both readings as parameters with the first not after the
    second.
 */
module DayRange {
  import opened Base

  const Second: int := 1_000_000_000
  const Hour: int := 3600 * Second
  const Day: int := 24 * Hour

  /** The look-back used when DAYS is unset or empty. */
  const DefaultDays: int := 40

  const MinInt64: int := -0x8000_0000_0000_0000
  const MaxInt64: int := 0x7FFF_FFFF_FFFF_FFFF
  const TwoTo64: int := 0x1_0000_0000_0000_0000

  /** The largest look-back whose Duration still fits in 64 bits (106751 days). */
  const MaxWholeDays: int := MaxInt64 / Day

  /** Two's-complement wrap-around of a signed 64-bit result. */
  function Wrap64(x: int): (r: int)
    ensures MinInt64 <= r <= MaxInt64
    ensures (x - r) % TwoTo64 == 0
    ensures MinInt64 <= x <= MaxInt64 ==> r == x
  {
    (x - MinInt64) % TwoTo64 + MinInt64
  }

  // ---------------------------------------------------------------------
  // Parsing the DAYS setting
  // ---------------------------------------------------------------------

  predicate IsDigit(c: char) {
    '0' <= c <= '9'
  }

  predicate AllDigits(s: string) {
    forall i :: 0 <= i < |s| ==> IsDigit(s[i])
  }

  /** The value of a string of decimal digits, most significant first. */
  function DigitsValue(s: string): nat
    requires AllDigits(s)
  {
    if |s| == 0 then 0
    else DigitsValue(s[..|s| - 1]) * 10 + (s[|s| - 1] as int - '0' as int)
  }

  /** The decimal digits of `n`, without leading zeros. */
  function Digits(n: nat): (s: string)
    ensures |s| > 0 && AllDigits(s)
  {
    if n < 10 then [('0' as int + n) as char]
    else Digits(n / 10) + [('0' as int + n % 10) as char]
  }

  /** The canonical decimal spelling of an integer. */
  function Show(n: int): string {
    if n < 0 then "-" + Digits(-n) else Digits(n)
  }

  /** Integer parsing as on a 64-bit platform: an optional sign, then at
      least one decimal digit and nothing else, with the value in the
      signed 64-bit range. Anything else is an error. */
  function Atoi(s: string): (r: Result<int, Fatal>)
    ensures r.Success? ==> MinInt64 <= r.value <= MaxInt64
    ensures |s| == 0 ==> r.Failure?
    ensures r.Failure? ==> r.error == ConfigError
  {
    var signed := |s| > 0 && (s[0] == '-' || s[0] == '+');
    var body := if signed then s[1..] else s;
    if |body| == 0 || !AllDigits(body) then Failure(ConfigError)
    else
      var magnitude: int := DigitsValue(body);
      var v := if signed && s[0] == '-' then -magnitude else magnitude;
      if MinInt64 <= v <= MaxInt64 then Success(v) else Failure(ConfigError)
  }

  /** The look-back in days: the default when DAYS is empty (unset reads as
      empty), its parsed value otherwise, and a fatal error when it does not
      parse. */
  function DaysSetting(env: string): (r: Result<int, Fatal>)
    ensures env == "" ==> r == Success(DefaultDays)
    ensures r.Success? ==> MinInt64 <= r.value <= MaxInt64
    ensures r.Failure? ==> r.error == ConfigError
  {
    if env == "" then Success(DefaultDays) else Atoi(env)
  }

  lemma {:induction false} DigitsRoundTrip(n: nat)
    ensures DigitsValue(Digits(n)) == n
  {
    if n >= 10 {
      DigitsRoundTrip(n / 10);
      var s := Digits(n);
      assert s[..|s| - 1] == Digits(n / 10);
    }
  }

  /** Every int64 written out in decimal parses back to itself, so every
      look-back the program can hold is reachable through DAYS. */
  lemma AtoiShowRoundTrip(n: int)
    requires MinInt64 <= n <= MaxInt64
    ensures Atoi(Show(n)) == Success(n)
  {
    var s := Show(n);
    if n < 0 {
      DigitsRoundTrip(-n);
      assert s[0] == '-';
      assert s[1..] == Digits(-n);
    } else {
      DigitsRoundTrip(n);
      assert IsDigit(s[0]);
    }
  }

  /** Every look-back an int64 can hold is reachable through DAYS, spelled
      in decimal. */
  lemma DaysSettingReachesEveryInt64(n: int)
    requires MinInt64 <= n <= MaxInt64
    ensures DaysSetting(Show(n)) == Success(n)
  {
    AtoiShowRoundTrip(n);
    assert |Show(n)| > 0;
  }

  /** DAYS accepts exactly the empty string, read as the default, and the
      decimal spellings of int64 values; every other value is rejected. */
  lemma DaysSettingAcceptsExactly(env: string, v: int)
    ensures DaysSetting(env) == Success(v) <==>
      (env == "" && v == DefaultDays) || (MinInt64 <= v <= MaxInt64 && Spells(env, v))
  {
    if env != "" {
      AtoiAcceptsExactlyDecimal(env, v);
    } else {
      assert |Digits(Abs(v))| > 0;
    }
  }

  /** A sign with no digits, or a stray character, is a configuration error. */
  lemma AtoiRejects()
    ensures Atoi("-").Failure? && Atoi("+").Failure?
    ensures Atoi("4O").Failure? && Atoi(" 40").Failure?
  {
    assert !IsDigit('O') && !IsDigit(' ');
    assert "4O"[1] == 'O';
  }

  /** The spellings `Atoi` accepts, described without parsing: an optional
      sign, any number of leading zeros, then the canonical digits of the
      magnitude. A minus sign goes with a value that is not positive, a plus
      sign or none with one that is not negative. */
  ghost predicate Spells(s: string, v: int) {
    exists k: nat :: SpellsWith(s, k, v)
  }

  predicate SpellsWith(s: string, k: nat, v: int) {
    var unsigned := Zeros(k) + Digits(Abs(v));
    (v >= 0 && (s == unsigned || s == "+" + unsigned)) || (v <= 0 && s == "-" + unsigned)
  }

  function Zeros(k: nat): string {
    seq(k, _ => '0')
  }

  function Abs(v: int): nat {
    if v < 0 then -v else v
  }

  /** Atoi accepts exactly the decimal spellings of int64 values: the string
      parses to `v` iff `v` is in range and the string spells it. Every other
      string, including every spelling of an out-of-range value, is rejected. */
  lemma AtoiAcceptsExactlyDecimal(s: string, v: int)
    ensures Atoi(s) == Success(v) <==> MinInt64 <= v <= MaxInt64 && Spells(s, v)
  {
    if Atoi(s) == Success(v) {
      AtoiSpells(s);
    } else if MinInt64 <= v <= MaxInt64 && Spells(s, v) {
      var k: nat :| SpellsWith(s, k, v);
      SpellingParses(s, k, v);
    }
  }

  /** Whatever Atoi accepts is a decimal spelling of the value it returns. */
  lemma AtoiSpells(s: string)
    requires Atoi(s).Success?
    ensures Spells(s, Atoi(s).value)
  {
    var v := Atoi(s).value;
    var signed := |s| > 0 && (s[0] == '-' || s[0] == '+');
    var body := if signed then s[1..] else s;
    var k := DigitsShape(body);
    if signed {
      assert s == [s[0]] + body;
    }
    assert SpellsWith(s, k, v);
  }

  /** Every decimal spelling of an int64 value parses to that value. */
  lemma SpellingParses(s: string, k: nat, v: int)
    requires MinInt64 <= v <= MaxInt64 && SpellsWith(s, k, v)
    ensures Atoi(s) == Success(v)
  {
    var u := Zeros(k) + Digits(Abs(v));
    PaddedValue(k, Digits(Abs(v)));
    DigitsRoundTrip(Abs(v));
    if v >= 0 && s == u {
      AtoiUnsigned(u);
    } else if v >= 0 && s == "+" + u {
      AtoiSigned('+', u);
    } else {
      AtoiSigned('-', u);
    }
  }

  /** A digit string without a sign parses to its value when that fits. */
  lemma AtoiUnsigned(u: string)
    requires |u| > 0 && AllDigits(u)
    ensures DigitsValue(u) <= MaxInt64 ==> Atoi(u) == Success(DigitsValue(u))
  {
    assert IsDigit(u[0]);
  }

  /** A digit string after a sign parses to its signed value when that fits. */
  lemma AtoiSigned(c: char, u: string)
    requires (c == '+' || c == '-') && |u| > 0 && AllDigits(u)
    ensures c == '+' && DigitsValue(u) <= MaxInt64 ==> Atoi([c] + u) == Success(DigitsValue(u))
    ensures c == '-' && MinInt64 <= -(DigitsValue(u) as int) ==> Atoi([c] + u) == Success(-(DigitsValue(u) as int))
  {
    assert ([c] + u)[1..] == u;
  }

  /** A string of zeros is worth nothing. */
  lemma {:induction false} ZerosValue(k: nat)
    ensures AllDigits(Zeros(k)) && DigitsValue(Zeros(k)) == 0
  {
    if k > 0 {
      assert Zeros(k)[..k - 1] == Zeros(k - 1);
      ZerosValue(k - 1);
    }
  }

  /** Leading zeros do not change the value of a digit string. */
  lemma {:induction false} PaddedValue(k: nat, d: string)
    requires AllDigits(d)
    ensures AllDigits(Zeros(k) + d) && DigitsValue(Zeros(k) + d) == DigitsValue(d)
  {
    var p := Zeros(k) + d;
    assert AllDigits(p) by {
      forall i | 0 <= i < |p| ensures IsDigit(p[i]) {
        if i >= k {
          assert p[i] == d[i - k];
        }
      }
    }
    if |d| == 0 {
      assert p == Zeros(k);
      ZerosValue(k);
    } else {
      assert p[..|p| - 1] == Zeros(k) + d[..|d| - 1];
      PaddedValue(k, d[..|d| - 1]);
    }
  }

  /** A digit string worth nothing is all zeros. */
  lemma {:induction false} ZeroValueIsZeros(b: string)
    requires AllDigits(b) && DigitsValue(b) == 0
    ensures b == Zeros(|b|)
  {
    if |b| > 0 {
      var p := b[..|b| - 1];
      assert AllDigits(p);
      assert IsDigit(b[|b| - 1]);
      assert DigitsValue(p) == 0 && b[|b| - 1] == '0';
      ZeroValueIsZeros(p);
      assert b == p + ['0'];
    }
  }

  /** Every non-empty digit string is some leading zeros followed by the
      canonical digits of its value. */
  lemma {:induction false} DigitsShape(b: string) returns (k: nat)
    requires |b| > 0 && AllDigits(b)
    ensures b == Zeros(k) + Digits(DigitsValue(b))
  {
    var p := b[..|b| - 1];
    var c := b[|b| - 1];
    var d := c as int - '0' as int;
    assert AllDigits(p);
    assert IsDigit(c);
    assert b == p + [c];
    if DigitsValue(p) == 0 {
      ZeroValueIsZeros(p);
      k := |p|;
      assert DigitsValue(b) == d;
      assert Digits(d) == [c];
    } else {
      k := DigitsShape(p);
      var m := DigitsValue(b);
      assert m == DigitsValue(p) * 10 + d;
      assert m / 10 == DigitsValue(p) && m % 10 == d;
      assert Digits(m) == Digits(DigitsValue(p)) + [c];
    }
  }

  // ---------------------------------------------------------------------
  // The day loop
  // ---------------------------------------------------------------------

  /** The first instant fetched: `days` whole days before the first clock
      reading. The Duration `-24h * days` is a 64-bit product and wraps. */
  function StartTick(days: int, now0: int): (start: int)
    ensures MinInt64 <= start - now0 <= MaxInt64
    ensures (-Day * days - (start - now0)) % TwoTo64 == 0
    ensures -MaxWholeDays <= days <= MaxWholeDays ==> start == now0 - days * Day
  {
    var offset := -Day * days;
    OffsetInRange(days);
    now0 + Wrap64(offset)
  }

  /** Look-backs of at most 106751 days, either way, do not wrap. */
  lemma OffsetInRange(days: int)
    ensures -MaxWholeDays <= days <= MaxWholeDays ==> MinInt64 <= -Day * days <= MaxInt64
  {
    if 0 <= days <= MaxWholeDays {
      assert Day * days <= Day * MaxWholeDays;
    } else if -MaxWholeDays <= days < 0 {
      assert Day * -days <= Day * MaxWholeDays;
    }
  }

  /** The instants the loop visits: from `start`, one day at a time, while
      the instant is not after `end`. */
  function DayTicks(start: int, end: int): seq<int>
    decreases if start <= end then end - start + 1 else 0
  {
    if start > end then [] else [start] + DayTicks(start + Day, end)
  }

  /** The loop's visits, without reference to the loop: consecutive visits
      are exactly one day apart, every visit is at or before `end`, the next
      one would be after it, and there are (end - start) / Day + 1 of them
      when start <= end. */
  predicate IsDaySchedule(start: int, end: int, ts: seq<int>) {
    && (forall k :: 0 <= k < |ts| ==> ts[k] == start + k * Day && ts[k] <= end)
    && start + |ts| * Day > end
    && |ts| == (if start <= end then (end - start) / Day + 1 else 0)
  }

  lemma {:induction false} DayTicksIsSchedule(start: int, end: int)
    ensures IsDaySchedule(start, end, DayTicks(start, end))
    decreases if start <= end then end - start + 1 else 0
  {
    if start <= end {
      var rest := DayTicks(start + Day, end);
      DayTicksIsSchedule(start + Day, end);
      var ts := DayTicks(start, end);
      assert ts == [start] + rest;
      forall k | 1 <= k < |ts|
        ensures ts[k] == start + k * Day
      {
        assert ts[k] == rest[k - 1];
      }
    }
  }

  /** The loop of main.go:59 with its instants collected in order. */
  method ScheduleDays(start: int, end: int) returns (ts: seq<int>)
    ensures IsDaySchedule(start, end, ts)
  {
    ts := [];
    var current := start;
    while current <= end
      invariant current == start + |ts| * Day
      invariant forall k :: 0 <= k < |ts| ==> ts[k] == start + k * Day && ts[k] <= end
      invariant |ts| > 0 ==> start + (|ts| - 1) * Day <= end
      decreases end - current + Day
    {
      ts := ts + [current];
      current := current + Day;
    }
  }

  /** With a look-back of n whole days (0 <= n <= 106751) and the two clock
      readings less than a day apart, exactly n + 1 days are fetched, the
      last one at the first clock reading. */
  lemma LookBackVisitsDaysPlusOne(n: int, now0: int, now1: int)
    requires 0 <= n <= MaxWholeDays
    requires now0 <= now1 < now0 + Day
    ensures |DayTicks(StartTick(n, now0), now1)| == n + 1
    ensures forall k :: 0 <= k <= n ==> DayTicks(StartTick(n, now0), now1)[k] == now0 - (n - k) * Day
  {
    var start := StartTick(n, now0);
    var ts := DayTicks(start, now1);
    DayTicksIsSchedule(start, now1);
    assert start == now0 - n * Day;
    assert now1 - start == n * Day + (now1 - now0);
    assert (now1 - start) / Day == n;
    forall k | 0 <= k <= n
      ensures ts[k] == now0 - (n - k) * Day
    {
      assert ts[k] == start + k * Day;
      assert start + k * Day == now0 - (n - k) * Day;
    }
  }

  /** A negative look-back puts the start after the end: nothing is fetched. */
  lemma NegativeLookBackVisitsNothing(n: int, now0: int, now1: int)
    requires -MaxWholeDays <= n < 0
    requires now0 <= now1 < now0 + Day
    ensures DayTicks(StartTick(n, now0), now1) == []
  {
    assert Wrap64(-Day * n) == -Day * n;
  }

  /** One day past the 64-bit limit the Duration product wraps to a large
      positive offset, the start lands centuries after the end, and nothing
      is fetched. */
  lemma OverflowingLookBackVisitsNothing(now0: int, now1: int)
    requires now0 <= now1 < now0 + Day
    ensures Wrap64(-Day * (MaxWholeDays + 1)) > 0
    ensures DayTicks(StartTick(MaxWholeDays + 1, now0), now1) == []
  {
  }

  /** One day past the 64-bit limit in the other direction the product wraps
      to a large negative offset: the start lands about 292 years back and
      the loop visits at least 106752 days. */
  lemma VeryNegativeLookBackVisitsCenturies(now0: int, now1: int)
    requires now0 <= now1 < now0 + Day
    ensures StartTick(-(MaxWholeDays + 1), now0) == now0 - 9_223_371_273_709_551_616
    ensures |DayTicks(StartTick(-(MaxWholeDays + 1), now0), now1)| >= MaxWholeDays + 1
    ensures now1 == now0 ==> |DayTicks(StartTick(-(MaxWholeDays + 1), now0), now1)| == MaxWholeDays + 1
  {
    var start := StartTick(-(MaxWholeDays + 1), now0);
    VeryNegativeOffset();
    DayTicksIsSchedule(start, now1);
    assert now1 - start >= MaxWholeDays * Day;
    DivLowerBound(now1 - start, MaxWholeDays);
    assert 9_223_371_273_709_551_616 / Day == MaxWholeDays;
  }

  lemma VeryNegativeOffset()
    ensures Wrap64(-Day * -(MaxWholeDays + 1)) == -9_223_371_273_709_551_616
  {
    assert -Day * -(MaxWholeDays + 1) == 9_223_372_800_000_000_000;
  }

  lemma DivLowerBound(x: int, q: nat)
    requires x >= q * Day
    ensures x / Day >= q
  {
  }
}
