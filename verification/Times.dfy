/**
  Conversions of `CqlTime` to and from a time of day. Models
  scylla-cql/src/value.rs:735-748 and 825-851, with Rust's truncating division and
  wrapping casts. What the calendar libraries accept is stated by `IsTime` and
  `IsNaiveTime`.
 */
module Times {
  import opened Arith
  import opened Wire
  import opened Vint
  import opened CqlTypes

  const SECOND: int := 1_000_000_000
  const MINUTE: int := 60 * SECOND
  const HOUR: int := 60 * MINUTE

  /** Division and remainder that truncate towards zero. */
  function Div(a: int, d: int): (q: int)
    requires d > 0
  {
    if a >= 0 then a / d else -(-a / d)
  }

  function Rem(a: int, d: int): (r: int)
    requires d > 0
  {
    if a >= 0 then a % d else -(-a % d)
  }

  /** `as u8` and `as u32` keep the low bits. */
  function AsU8(a: int): (b: nat) {
    a % 0x100
  }

  function AsU32(a: int): (b: nat) {
    a % 0x1_0000_0000
  }

  datatype HmsNano = HmsNano(h: nat, m: nat, s: nat, n: nat)

  /** `Time::from_hms_nano`. */
  predicate IsTime(t: HmsNano) {
    t.h < 24 && t.m < 60 && t.s < 60 && t.n < SECOND
  }

  function ToTime(nanos: i64): (t: Option<HmsNano>) {
    var h, m := Div(nanos, HOUR), Rem(Div(nanos, MINUTE), 60);
    var s, n := Rem(Div(nanos, SECOND), 60), Rem(nanos, SECOND);
    if !(0 <= h < 0x100) then None
    else
      var t := HmsNano(h, AsU8(m), AsU8(s), AsU32(n));
      if IsTime(t) then Some(t) else None
  }

  function FromTime(t: HmsNano): (nanos: int) {
    (t.h * 3600 + t.m * 60 + t.s) * SECOND + t.n
  }

  /** The parts of a number of nanoseconds that is not negative. */
  lemma Parts(nanos: nat)
    ensures var h, m, s, n := nanos / HOUR, nanos / MINUTE % 60, nanos / SECOND % 60, nanos % SECOND;
            nanos == (h * 3600 + m * 60 + s) * SECOND + n
  {
    var seconds := nanos / SECOND;
    assert nanos / MINUTE == seconds / 60 && nanos / HOUR == seconds / 3600;
    assert seconds == (seconds / 3600) * 3600 + (seconds / 60 % 60) * 60 + seconds % 60;
  }

  /** A negative time wraps into a part out of range, so it is refused. */
  lemma NegativeRefused(nanos: i64)
    requires nanos < 0
    ensures ToTime(nanos).None?
  {
    hide AsU8, AsU32;
    var signed: int := nanos;
    var a := -signed;
    if Div(nanos, HOUR) >= 0 {
      Parts(a);
      var m, s, n := a / MINUTE % 60, a / SECOND % 60, a % SECOND;
      assert m > 0 || s > 0 || n > 0;
      WrappedPart(m);
      WrappedPart(s);
      WrappedNanos(n);
    }
  }

  lemma WrappedPart(m: int)
    requires 0 <= m < 60
    ensures m > 0 ==> AsU8(-m) == 0x100 - m
  {
  }

  lemma WrappedNanos(n: int)
    requires 0 <= n < SECOND
    ensures n > 0 ==> AsU32(-n) == 0x1_0000_0000 - n
  {
  }

  /** Exactly the times of a day are converted, to hours, minutes, seconds and nanoseconds, and back to themselves. */
  lemma ToTimeExactlyWhen(nanos: i64)
    ensures ToTime(nanos).Some? <==> 0 <= nanos < 86_400_000_000_000
    ensures ToTime(nanos).Some? ==>
              var t := ToTime(nanos).value;
              && t.h < 24 && t.m < 60 && t.s < 60 && t.n < 1_000_000_000
              && nanos == ((t.h * 60 + t.m) * 60 + t.s) * 1_000_000_000 + t.n
              && FromTime(t) == nanos
  {
    if nanos < 0 {
      NegativeRefused(nanos);
    } else {
      Parts(nanos);
      Hours(nanos);
      if nanos <= MAX_TIME {
        SmallParts(nanos, HmsNano(nanos / HOUR, nanos / MINUTE % 60, nanos / SECOND % 60, nanos % SECOND));
      }
    }
  }

  lemma Hours(nanos: nat)
    ensures nanos / HOUR < 24 <==> nanos <= MAX_TIME
  {
  }

  lemma SmallParts(nanos: int, t: HmsNano)
    requires 0 <= nanos < 0x8000_0000_0000_0000 && IsTime(t)
    requires nanos / HOUR == t.h && nanos / MINUTE % 60 == t.m && nanos / SECOND % 60 == t.s && nanos % SECOND == t.n
    ensures ToTime(nanos) == Some(t)
  {
    hide AsU8, AsU32;
    KeptParts(t);
  }

  lemma KeptParts(t: HmsNano)
    requires IsTime(t)
    ensures AsU8(t.m) == t.m && AsU8(t.s) == t.s && AsU32(t.n) == t.n
  {
  }

  lemma TimeRoundTrip(t: HmsNano)
    requires IsTime(t)
    ensures -0x8000_0000_0000_0000 <= FromTime(t) < 0x8000_0000_0000_0000 && ToTime(FromTime(t)) == Some(t)
  {
    var minutes := t.h * 60 + t.m;
    var seconds := minutes * 60 + t.s;
    var nanos: int := seconds * SECOND + t.n;
    DivModUnique(nanos, SECOND, seconds, t.n);
    DivModUnique(nanos, MINUTE, minutes, t.s * SECOND + t.n);
    DivModUnique(nanos, HOUR, t.h, (t.m * 60 + t.s) * SECOND + t.n);
    DivModUnique(seconds, 60, minutes, t.s);
    DivModUnique(minutes, 60, t.h, t.m);
    SmallParts(nanos, t);
  }

  // ---------------------------------------------------------------- naive times

  datatype Naive = Naive(seconds: nat, nanos: nat)

  /** `NaiveTime::from_num_seconds_from_midnight_opt`; a leap second only ends a minute. */
  predicate IsNaiveTime(t: Naive) {
    t.seconds < 86400 && (t.nanos < SECOND || (t.nanos < 2 * SECOND && t.seconds % 60 == 59))
  }

  function ToNaiveTime(nanos: i64): (t: Option<Naive>) {
    var s, n := Div(nanos, SECOND), Rem(nanos, SECOND);
    if 0 <= s < 0x1_0000_0000 && 0 <= n < 0x1_0000_0000 && IsNaiveTime(Naive(s, n)) then Some(Naive(s, n))
    else None
  }

  /** Exactly the times of a day are converted, none to a leap second. */
  lemma ToNaiveTimeExactlyWhen(nanos: i64)
    ensures ToNaiveTime(nanos).Some? <==> 0 <= nanos < 86_400_000_000_000
    ensures ToNaiveTime(nanos).Some? ==>
              var t := ToNaiveTime(nanos).value;
              t.nanos < 1_000_000_000 && t.seconds * 1_000_000_000 + t.nanos == nanos
  {
    if nanos < 0 {
      assert Div(nanos, SECOND) == 0 ==> Rem(nanos, SECOND) == nanos;
    }
  }
}
