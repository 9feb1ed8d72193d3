/**
 * The NTP64 timestamp: one `u64` whose high 32 bits count seconds and whose
 * low 32 bits are a fixed-point fraction of a second (unit 2^-32 s), the
 * timestamp format of section 6 of RFC 5905.
 *
 * Arithmetic follows a release build (wrap-around modulo 2^64, see module
 * Machine); the lemmas say when the exact result fits. A panic (`assert!`, or
 * the overflow check inside `Duration::new`) is the `Panics` outcome.
 */
module Ntp64 {
  import opened Machine
  import opened Durations
  import Decimal

  /** Largest number of seconds the 32-bit seconds field holds: (1 << 32) - 1. */
  const MAX_NB_SEC: u64 := 0xFFFF_FFFF
  /** Fraction units per second: 1 << 32. */
  const FRAC_PER_SEC: u64 := 0x1_0000_0000
  /** Mask of the fraction field. */
  const FRAC_MASK: u64 := 0xFFFF_FFFF
  const NANO_PER_SEC: u64 := 1_000_000_000

  datatype NTP64 = NTP64(raw: u64)

  /** The derived `Default`: all bits zero. */
  function Default(): (t: NTP64)
    ensures AsSecs(t) == 0 && Fraction(t) == 0
  {
    NTP64(0)
  }

  // ---------------------------------------------------------------------
  // Representation and accessors

  /** `as_u64`: the raw value, unchanged. */
  function AsU64(t: NTP64): (r: u64)
    ensures NTP64(r) == t
  {
    t.raw
  }

  /** `self.0 & FRAC_MASK`: the fraction field. */
  function Fraction(t: NTP64): (f: u32)
    ensures f <= FRAC_MASK
    ensures (t.raw - f) % FRAC_PER_SEC == 0
  {
    LowHalf(t.raw)
  }

  /** `as_secs`: the seconds field; with the fraction it makes up the whole value. */
  function AsSecs(t: NTP64): (s: u32)
    ensures s <= MAX_NB_SEC
    ensures t.raw == s * FRAC_PER_SEC + Fraction(t)
  {
    AsU32(Shr32(t.raw))
  }

  /**
   * `subsec_nanos`: the fraction in nanoseconds, rounded down. The product
   * `frac * NANO_PER_SEC` stays below 2^62, so nothing wraps, and the result
   * is below one second, so the cast to `u32` loses nothing.
   */
  function SubsecNanos(t: NTP64): (n: u32)
    ensures n < NANO_PER_SEC
    ensures n * FRAC_PER_SEC <= Fraction(t) * NANO_PER_SEC < (n + 1) * FRAC_PER_SEC
  {
    var frac := LowHalf(t.raw);
    assert frac * NANO_PER_SEC < 0x4000_0000_0000_0000;
    AsU32(WrappingMul(frac, NANO_PER_SEC) / FRAC_PER_SEC)
  }

  // ---------------------------------------------------------------------
  // Conversions to and from Duration

  /** `to_duration`: the seconds and the nanoseconds; `Duration::new` never carries here. */
  function ToDuration(t: NTP64): (d: Duration)
    ensures d.secs == AsSecs(t) && d.nanos == SubsecNanos(t)
  {
    Durations.New(AsSecs(t), SubsecNanos(t)).value
  }

  /**
   * `From<Duration>`: `(secs << 32) + nanos * 2^32 / 10^9 + 1`. It panics
   * exactly when the seconds do not fit in 32 bits. Otherwise nothing wraps
   * and the `+ 1` stays in the fraction field, so the seconds come through
   * unchanged.
   */
  function FromDuration(d: Duration): (r: Checked<NTP64>)
    ensures r.Panics? <==> d.secs > MAX_NB_SEC
    ensures r.Returns? ==> AsSecs(r.value) == d.secs
    ensures r.Returns? ==> Fraction(r.value) == d.nanos * FRAC_PER_SEC / NANO_PER_SEC + 1
  {
    var secs := d.secs;
    if secs > MAX_NB_SEC then
      Panics
    else
      var nanos: u64 := d.nanos;
      var frac := WrappingMul(nanos, FRAC_PER_SEC) / NANO_PER_SEC;
      FractionBound(nanos);
      Returns(NTP64(WrappingAdd(WrappingAdd(Shl32(secs), frac), 1)))
  }

  /**
   * The fraction `From<Duration>` computes before its `+ 1` is at most
   * 2^32 - 5, attained at 999_999_999 ns; so after the `+ 1` the fraction is
   * at most 2^32 - 4 and never carries into the seconds.
   */
  lemma FractionBound(nanos: nat)
    requires nanos < NANO_PER_SEC
    ensures nanos * FRAC_PER_SEC < 0x4000_0000_0000_0000
    ensures nanos * FRAC_PER_SEC / NANO_PER_SEC <= FRAC_PER_SEC - 5
    ensures nanos == NANO_PER_SEC - 1 ==> nanos * FRAC_PER_SEC / NANO_PER_SEC == FRAC_PER_SEC - 5
  {
    var q := nanos * FRAC_PER_SEC / NANO_PER_SEC;
    assert q * NANO_PER_SEC <= nanos * FRAC_PER_SEC <= (NANO_PER_SEC - 1) * FRAC_PER_SEC;
  }

  /**
   * Duration -> NTP64 -> Duration gives back the same duration, to the
   * nanosecond: the `+ 1` and the two roundings down cancel out.
   */
  lemma DurationRoundTrip(d: Duration)
    requires d.secs <= MAX_NB_SEC
    ensures FromDuration(d).Returns?
    ensures ToDuration(FromDuration(d).value) == d
  {
    var t := FromDuration(d).value;
    var n := d.nanos;
    var q := n * FRAC_PER_SEC / NANO_PER_SEC;
    assert q * NANO_PER_SEC <= n * FRAC_PER_SEC < q * NANO_PER_SEC + NANO_PER_SEC;
    var m := SubsecNanos(t);
    assert Fraction(t) == q + 1;
    assert m * FRAC_PER_SEC <= (q + 1) * NANO_PER_SEC < (m + 1) * FRAC_PER_SEC;
    assert n * FRAC_PER_SEC < (q + 1) * NANO_PER_SEC <= n * FRAC_PER_SEC + NANO_PER_SEC;
  }

  /**
   * NTP64 -> Duration -> NTP64 is not the identity, but it keeps the seconds
   * and moves the fraction by at most 4 units down or 1 unit up.
   */
  lemma ReverseTripBound(t: NTP64)
    ensures FromDuration(ToDuration(t)).Returns?
    ensures AsSecs(FromDuration(ToDuration(t)).value) == AsSecs(t)
    ensures Fraction(t) - 4 <= Fraction(FromDuration(ToDuration(t)).value) <= Fraction(t) + 1
  {
    var f := Fraction(t);
    var n := SubsecNanos(t);
    var q := n * FRAC_PER_SEC / NANO_PER_SEC;
    assert q * NANO_PER_SEC <= n * FRAC_PER_SEC < q * NANO_PER_SEC + NANO_PER_SEC;
    assert n * FRAC_PER_SEC <= f * NANO_PER_SEC < n * FRAC_PER_SEC + FRAC_PER_SEC;
  }

  /** On the timestamps `From<Duration>` produces, the reverse trip is the identity. */
  lemma ReverseTripOnConverted(d: Duration)
    requires d.secs <= MAX_NB_SEC
    ensures FromDuration(ToDuration(FromDuration(d).value)) == FromDuration(d)
  {
    DurationRoundTrip(d);
  }

  /** The reverse trip is lossy: the zero timestamp comes back as 1. */
  lemma ReverseTripIsLossy()
    ensures FromDuration(ToDuration(Default())) == Returns(NTP64(1))
  {
    assert ToDuration(Default()) == Duration(0, 0);
  }

  /** 10_000 s and 500_000_000 ns convert to seconds 10_000 and exactly 500_000_000 ns. */
  lemma FromDurationExample()
    ensures FromDuration(Duration(10_000, 500_000_000)).Returns?
    ensures AsSecs(FromDuration(Duration(10_000, 500_000_000)).value) == 10_000
    ensures SubsecNanos(FromDuration(Duration(10_000, 500_000_000)).value) == 500_000_000
  {
    DurationRoundTrip(Duration(10_000, 500_000_000));
  }

  /** `From<Duration>` preserves the order of durations strictly. */
  lemma FromDurationMonotone(a: Duration, b: Duration)
    requires a.secs <= MAX_NB_SEC && b.secs <= MAX_NB_SEC
    requires Before(a, b)
    ensures Lt(FromDuration(a).value, FromDuration(b).value)
  {
    var ta, tb := FromDuration(a).value, FromDuration(b).value;
    if a.secs == b.secs {
      var qa := a.nanos * FRAC_PER_SEC / NANO_PER_SEC;
      var qb := b.nanos * FRAC_PER_SEC / NANO_PER_SEC;
      assert qa * NANO_PER_SEC <= a.nanos * FRAC_PER_SEC;
      assert b.nanos * FRAC_PER_SEC < qb * NANO_PER_SEC + NANO_PER_SEC;
    }
    OrderIsSecsThenFraction(ta, tb);
  }

  // ---------------------------------------------------------------------
  // Ordering and equality, derived from the u64

  datatype Ordering = Less | Equal | Greater

  /** The derived `PartialEq`: equal bit patterns. */
  function Eq(a: NTP64, b: NTP64): (r: bool)
    ensures r <==> a == b
  {
    a.raw == b.raw
  }

  /** The derived `Ord`: the order of the raw values. */
  function Cmp(a: NTP64, b: NTP64): (o: Ordering)
    ensures o == Equal <==> a == b
    ensures o == Less <==> a.raw < b.raw
    ensures o == Greater <==> b.raw < a.raw
  {
    if a.raw < b.raw then Less else if a.raw == b.raw then Equal else Greater
  }

  /** The derived `PartialOrd` operators, each answered from `Cmp`. */
  predicate Lt(a: NTP64, b: NTP64)
    ensures Lt(a, b) <==> a.raw < b.raw
  {
    Cmp(a, b) == Less
  }

  predicate Le(a: NTP64, b: NTP64)
    ensures Le(a, b) <==> a.raw <= b.raw
  {
    Cmp(a, b) != Greater
  }

  predicate Gt(a: NTP64, b: NTP64)
    ensures Gt(a, b) <==> b.raw < a.raw
  {
    Cmp(a, b) == Greater
  }

  predicate Ge(a: NTP64, b: NTP64)
    ensures Ge(a, b) <==> b.raw <= a.raw
  {
    Cmp(a, b) != Less
  }

  /** `Cmp` is a total order: swapping the operands reverses it, and `<` is transitive. */
  lemma CmpIsTotalOrder(a: NTP64, b: NTP64, c: NTP64)
    ensures Cmp(a, b) == Less <==> Cmp(b, a) == Greater
    ensures Cmp(a, b) == Equal <==> Cmp(b, a) == Equal
    ensures Lt(a, b) && Lt(b, c) ==> Lt(a, c)
    ensures Le(a, b) && Le(b, a) ==> a == b
  {
  }

  /** Timestamps compare as seconds first, then fraction. */
  lemma OrderIsSecsThenFraction(a: NTP64, b: NTP64)
    ensures Lt(a, b) <==> AsSecs(a) < AsSecs(b) || (AsSecs(a) == AsSecs(b) && Fraction(a) < Fraction(b))
  {
    var sa, sb := AsSecs(a), AsSecs(b);
    if sa < sb {
      assert a.raw < (sa + 1) * FRAC_PER_SEC <= sb * FRAC_PER_SEC <= b.raw;
    } else if sb < sa {
      assert b.raw < (sb + 1) * FRAC_PER_SEC <= sa * FRAC_PER_SEC <= a.raw;
    }
  }

  /** The default timestamp is the least one, and `NTP64(1)` is above it. */
  lemma DefaultIsLeast(t: NTP64)
    ensures Le(Default(), t)
    ensures Gt(NTP64(1), Default())
  {
  }

  // ---------------------------------------------------------------------
  // Arithmetic

  /** `NTP64 + NTP64`. */
  function Add(a: NTP64, b: NTP64): (r: NTP64)
    ensures a.raw + b.raw < TWO_64 ==> r.raw == a.raw + b.raw
    ensures a.raw + b.raw >= TWO_64 ==> r.raw == a.raw + b.raw - TWO_64
  {
    NTP64(WrappingAdd(a.raw, b.raw))
  }

  /** `NTP64 + u64`: advance by a number of fraction units. */
  function AddU64(t: NTP64, k: u64): (r: NTP64)
    ensures t.raw + k < TWO_64 ==> r.raw == t.raw + k
    ensures t.raw + k >= TWO_64 ==> r.raw == t.raw + k - TWO_64
  {
    NTP64(WrappingAdd(t.raw, k))
  }

  /** `NTP64 - NTP64`: the elapsed fraction units. */
  function Sub(a: NTP64, b: NTP64): (r: NTP64)
    ensures b.raw <= a.raw ==> r.raw == a.raw - b.raw
    ensures a.raw < b.raw ==> r.raw == a.raw - b.raw + TWO_64
  {
    NTP64(WrappingSub(a.raw, b.raw))
  }

  /** `NTP64 - u64`: go back by a number of fraction units. */
  function SubU64(t: NTP64, k: u64): (r: NTP64)
    ensures k <= t.raw ==> r.raw == t.raw - k
    ensures t.raw < k ==> r.raw == t.raw - k + TWO_64
  {
    NTP64(WrappingSub(t.raw, k))
  }

  /** Adding or subtracting a raw offset is adding or subtracting the timestamp with that raw value. */
  lemma OffsetIsTimestamp(t: NTP64, k: u64)
    ensures AddU64(t, k) == Add(t, NTP64(k))
    ensures SubU64(t, k) == Sub(t, NTP64(k))
  {
  }

  /** Subtracting an offset undoes adding it, and the other way round. */
  lemma AddSubCancel(t: NTP64, k: u64)
    ensures SubU64(AddU64(t, k), k) == t
    ensures AddU64(SubU64(t, k), k) == t
  {
  }

  /** When `b <= a`, `a - b` is the exact elapsed span: no wrap-around happens. */
  lemma Elapsed(a: NTP64, b: NTP64)
    requires Le(b, a)
    ensures Sub(a, b).raw == a.raw - b.raw
  {
  }

  /** Adding `a - b` back to `b` gives `a` for all timestamps, the wrap-arounds cancelling. */
  lemma SubAddCancel(a: NTP64, b: NTP64)
    ensures Add(b, Sub(a, b)) == a
  {
  }

  /** Advancing by a positive offset that does not overflow gives a later timestamp. */
  lemma AddU64Advances(t: NTP64, k: u64)
    requires 0 < k && t.raw + k < TWO_64
    ensures Lt(t, AddU64(t, k))
  {
  }

  /**
   * A place holding an NTP64 value: what `&NTP64` and `&mut NTP64` refer to.
   * `+=` and `-=` replace the whole value held.
   */
  class Place {
    var value: NTP64

    constructor (t: NTP64)
      ensures value == t
    {
      value := t;
    }

    /** `AddAssign<u64>`: `*self = Self(self.0 + other)`. */
    method AddAssign(other: u64)
      modifies this
      ensures value == AddU64(old(value), other)
    {
      value := NTP64(WrappingAdd(value.raw, other));
    }

    /** `SubAssign<u64>`: `*self = Self(self.0 - other)`. */
    method SubAssign(other: u64)
      modifies this
      ensures value == SubU64(old(value), other)
    {
      value := NTP64(WrappingSub(value.raw, other));
    }
  }

  /** `&NTP64 + NTP64`. */
  function RefAdd(a: Place, b: NTP64): (r: NTP64)
    reads a
    ensures r == Add(a.value, b)
  {
    Add(a.value, b)
  }

  /** `NTP64 + &NTP64`. */
  function AddRef(a: NTP64, b: Place): (r: NTP64)
    reads b
    ensures r == Add(a, b.value)
  {
    Add(a, b.value)
  }

  /** `&NTP64 + &NTP64`. */
  function RefAddRef(a: Place, b: Place): (r: NTP64)
    reads a, b
    ensures r == Add(a.value, b.value)
  {
    Add(a.value, b.value)
  }

  /** `&NTP64 - NTP64`. */
  function RefSub(a: Place, b: NTP64): (r: NTP64)
    reads a
    ensures r == Sub(a.value, b)
  {
    Sub(a.value, b)
  }

  /** `NTP64 - &NTP64`. */
  function SubRef(a: NTP64, b: Place): (r: NTP64)
    reads b
    ensures r == Sub(a, b.value)
  {
    Sub(a, b.value)
  }

  /** `&NTP64 - &NTP64`. */
  function RefSubRef(a: Place, b: Place): (r: NTP64)
    reads a, b
    ensures r == Sub(a.value, b.value)
  {
    Sub(a.value, b.value)
  }

  // ---------------------------------------------------------------------
  // Decimal text

  /** The error `FromStr` returns, with its diagnostic. */
  datatype ParseNTP64Error = ParseNTP64Error(cause: string)

  datatype Result<T, E> = Ok(value: T) | Err(error: E)

  /** `Display` without the alternate flag: the raw value in decimal. */
  function Display(t: NTP64): (s: string)
    ensures Decimal.Canonical(s) && Decimal.Value(s) == t.raw
  {
    Decimal.RenderIsCanonical(t.raw);
    Decimal.Render(t.raw)
  }

  /** `Display` in a build without `std`: decimal with or without the alternate flag. */
  function DisplayNoStd(t: NTP64, alternate: bool): (s: string)
    ensures s == Display(t)
  {
    if alternate then Decimal.Render(t.raw) else Decimal.Render(t.raw)
  }

  /** `Debug`: always the decimal form, whatever the formatter's flags. */
  function Debug(t: NTP64, alternate: bool): (s: string)
    ensures s == Display(t)
  {
    Decimal.Render(t.raw)
  }

  /** The diagnostic for text that is not a `u64`. */
  function InvalidCause(s: string): string
  {
    "Invalid NTP64 time : '" + s + "' (must be a u64)"
  }

  /** `FromStr`: the text parsed as a `u64`, or the error naming the text. */
  function FromStr(s: string): (r: Result<NTP64, ParseNTP64Error>)
    ensures r.Ok? <==> Decimal.ParseU64(s).Some?
    ensures r.Ok? ==> r.value.raw == Decimal.ParseU64(s).value
    ensures r.Err? ==> r.error.cause == InvalidCause(s)
  {
    match Decimal.ParseU64(s)
    case Some(v) => Ok(NTP64(v))
    case None => Err(ParseNTP64Error(InvalidCause(s)))
  }

  /** Parsing the decimal rendering gives the timestamp back. */
  lemma DisplayRoundTrip(t: NTP64)
    ensures FromStr(Display(t)) == Ok(t)
  {
    Decimal.ParseRender(t.raw);
  }

  /** Any text in the rendered form that parses is the rendering of what it parses to. */
  lemma CanonicalRoundTrip(s: string)
    requires Decimal.Canonical(s) && FromStr(s).Ok?
    ensures Display(FromStr(s).value) == s
  {
    Decimal.RenderValue(s);
  }

  /** Distinct timestamps render differently. */
  lemma DisplayInjective(a: NTP64, b: NTP64)
    requires Display(a) == Display(b)
    ensures a == b
  {
    DisplayRoundTrip(a);
    DisplayRoundTrip(b);
  }

  /** `FromStr` rejects empty text and `"abc"`, naming the text in the error. */
  lemma FromStrRejects()
    ensures FromStr("") == Err(ParseNTP64Error("Invalid NTP64 time : '' (must be a u64)"))
    ensures FromStr("abc") == Err(ParseNTP64Error("Invalid NTP64 time : 'abc' (must be a u64)"))
  {
    Decimal.ParseRejectsNonDigit("abc", 0);
    CauseExamples();
  }

  lemma CauseExamples()
    ensures InvalidCause("") == "Invalid NTP64 time : '' (must be a u64)"
    ensures InvalidCause("abc") == "Invalid NTP64 time : 'abc' (must be a u64)"
  {
  }

  /** The cause quotes the rejected text in full. */
  lemma CauseNamesText(s: string)
    ensures |InvalidCause(s)| == |s| + 39
    ensures InvalidCause(s)[22..22 + |s|] == s
  {
  }

  /** `FromStr` rejects the decimal text of every number above 2^64 - 1. */
  lemma FromStrRejectsOverflow(n: nat)
    requires n >= TWO_64
    ensures FromStr(Decimal.Render(n)) == Err(ParseNTP64Error(InvalidCause(Decimal.Render(n))))
  {
    Decimal.RenderIsCanonical(n);
    Decimal.ParseRejectsOverflow(Decimal.Render(n));
  }

  /** The first six digits of the documented example. */
  lemma DisplayExampleHead()
    ensures Decimal.Render(738669) == "738669"
  {
    Decimal.RenderStep(73, "7", "73");
    Decimal.RenderStep(738, "73", "738");
    Decimal.RenderStep(7386, "738", "7386");
    Decimal.RenderStep(73866, "7386", "73866");
    Decimal.RenderStep(738669, "73866", "738669");
  }

  /** The first thirteen digits of the documented example. */
  lemma DisplayExampleMiddle()
    ensures Decimal.Render(7386690599959) == "7386690599959"
  {
    DisplayExampleHead();
    Decimal.RenderStep(7386690, "738669", "7386690");
    Decimal.RenderStep(73866905, "7386690", "73866905");
    Decimal.RenderStep(738669059, "73866905", "738669059");
    Decimal.RenderStep(7386690599, "738669059", "7386690599");
    Decimal.RenderStep(73866905999, "7386690599", "73866905999");
    Decimal.RenderStep(738669059995, "73866905999", "738669059995");
    Decimal.RenderStep(7386690599959, "738669059995", "7386690599959");
  }

  /** The documented example: 7386690599959157260 renders as its digits. */
  lemma DisplayExample()
    ensures Display(NTP64(7386690599959157260)) == "7386690599959157260"
  {
    DisplayExampleMiddle();
    Decimal.RenderStep(73866905999591, "7386690599959", "73866905999591");
    Decimal.RenderStep(738669059995915, "73866905999591", "738669059995915");
    Decimal.RenderStep(7386690599959157, "738669059995915", "7386690599959157");
    Decimal.RenderStep(73866905999591572, "7386690599959157", "73866905999591572");
    Decimal.RenderStep(738669059995915726, "73866905999591572", "738669059995915726");
    Decimal.RenderStep(7386690599959157260, "738669059995915726", "7386690599959157260");
  }
}
