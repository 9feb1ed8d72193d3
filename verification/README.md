# NTP64 timestamps, modelled in Dafny

This project models `NTP64`, the timestamp value of the uhlc hybrid logical
clock. An `NTP64` is one unsigned 64-bit integer. Its high 32 bits count
seconds and its low 32 bits are a fixed-point fraction of a second in units of
2^-32 s. This is the timestamp format of section 6 of RFC 5905. The model covers:

- the bit layout and its accessors;
- the conversions to and from a `Duration`;
- the arithmetic between timestamps and with raw offsets;
- the derived order and equality;
- the lossless decimal text form, with its parse error.

Files:

- `machine.dfy` (module `Machine`): the `u32` and `u64` types. It also holds the
  Rust operators the source applies to them: wrapping `+`, `-` and `*`, `>> 32`,
  `<< 32`, `& 0xFFFF_FFFF` and `as u32`. Each is given by its arithmetic meaning.
  The module also defines `Checked<T>`, whose `Panics` case stands for a panic.
- `durations.dfy` (module `Durations`): the part of Rust's `core::time::Duration`
  that is used. That is whole seconds plus nanoseconds below one second, and
  `Duration::new`, which carries whole seconds out of the nanoseconds and panics
  when that carry overflows. This follows the behaviour documented for Rust's
  core library, which is not part of this model.
- `decimal.dfy` (module `Decimal`): decimal text for `u64`. It holds the
  rendering `write!(f, "{}", n)` performs and the parsing `u64::from_str` performs.
  The parser accepts one optional `+` and then digits only, leading zeros
  included. It rejects empty text, a lone sign, `-`, any other character, and
  values above 2^64 - 1.
- `ntp64.dfy` (module `Ntp64`): the timestamp itself, the `ParseNTP64Error` type,
  and a class `Place` for the memory a `&NTP64` or `&mut NTP64` refers to.

Arithmetic overflow policy: `+`, `-` and `*` on `u64` are modelled as a release
build runs them, wrapping around modulo 2^64. This applies everywhere in the
model. A debug build panics instead of wrapping. The contracts state when the
exact result fits, which is exactly when the two builds agree. The `assert!`
in `From<Duration>` panics in every build. It is modelled as the `Panics`
outcome, not as a precondition.

Facts about the code that the model makes precise:

- The parse error's cause is `Invalid NTP64 time : '<s>' (must be a u64)`.
- `From<Duration>` joins the seconds and the fraction with `+`. This gives the
  same value as `|`, because the fraction is below 2^32 and so shares no bit
  with the shifted seconds.
- The `+ 1` added to the fraction never carries into the seconds, because the
  fraction is at most 2^32 - 5 before it is added.
- The duration round trip is exact to the nanosecond.

## Model

| member | source | states |
|---|---|---|
| `Ntp64.AsU64` | src/ntp64.rs:76-78 | `as_u64` returns the raw value unchanged: wrapping it again gives back the same timestamp |
| `Ntp64.Fraction` | src/ntp64.rs:102 | `self.0 & FRAC_MASK` is at most `FRAC_MASK` and agrees with the raw value modulo 2^32, so it is exactly the low 32 bits |
| `Ntp64.AsSecs` | src/ntp64.rs:95-97 | `as_secs` is at most `MAX_NB_SEC`, and raw == as_secs * 2^32 + (raw & FRAC_MASK) |
| `Ntp64.SubsecNanos` | src/ntp64.rs:101-104 | `subsec_nanos` is below 10^9 and is exactly floor(frac * 10^9 / 2^32); so the product does not wrap and the cast to `u32` loses nothing |
| `Ntp64.Default` | src/ntp64.rs:69 | the derived default has seconds 0 and fraction 0 |
| `Ntp64.ToDuration` | src/ntp64.rs:108-110 | `to_duration` never panics, and `Duration::new` never carries: the result has exactly `as_secs` seconds and `subsec_nanos` nanoseconds |
| `Ntp64.FromDuration` | src/ntp64.rs:279-284 | `From<Duration>` panics exactly when the seconds exceed `MAX_NB_SEC`; otherwise nothing wraps, the seconds come through unchanged, and the fraction is floor(nanos * 2^32 / 10^9) + 1 |
| `Ntp64.FractionBound` | src/ntp64.rs:283 | the intermediate product stays below 2^62, and floor(nanos * 2^32 / 10^9) is at most 2^32 - 5, attained at 999_999_999 ns; so the `+ 1` never carries into the seconds |
| `Ntp64.DurationRoundTrip` | src/ntp64.rs:279-284 | for seconds up to `MAX_NB_SEC`, converting a duration to NTP64 and back gives the same duration, to the nanosecond |
| `Ntp64.ReverseTripBound` | src/ntp64.rs:60-61 | NTP64 -> Duration -> NTP64 never panics, keeps the seconds, and moves the fraction by at most 4 units down or 1 unit up |
| `Ntp64.ReverseTripOnConverted` | src/ntp64.rs:283 | on timestamps produced by `From<Duration>`, the reverse trip is the identity |
| `Ntp64.ReverseTripIsLossy` | src/ntp64.rs:60-61 | the reverse trip is not the identity in general: the zero timestamp comes back as 1 |
| `Ntp64.FromDurationExample` | src/ntp64.rs:279-284 | 10_000 s and 500_000_000 ns give seconds 10_000 and `subsec_nanos` exactly 500_000_000 |
| `Ntp64.FromDurationMonotone` | src/ntp64.rs:279-284 | a strictly shorter duration converts to a strictly smaller timestamp |
| `Ntp64.Eq` | src/ntp64.rs:69 | the derived `PartialEq` holds exactly when the two bit patterns are equal |
| `Ntp64.Cmp` | src/ntp64.rs:69 | the derived `Ord` answers Equal exactly for equal timestamps, and Less or Greater exactly as the raw `u64` values compare |
| `Ntp64.Lt` | src/ntp64.rs:69 | the derived `<` holds exactly when the raw value of the left operand is smaller |
| `Ntp64.Le` | src/ntp64.rs:69 | the derived `<=` holds exactly when the raw value of the left operand is smaller or equal |
| `Ntp64.Gt` | src/ntp64.rs:69 | the derived `>` holds exactly when the raw value of the left operand is larger |
| `Ntp64.Ge` | src/ntp64.rs:69 | the derived `>=` holds exactly when the raw value of the left operand is larger or equal |
| `Ntp64.CmpIsTotalOrder` | src/ntp64.rs:69 | the order is antisymmetric and transitive, and swapping the operands reverses it |
| `Ntp64.OrderIsSecsThenFraction` | src/ntp64.rs:69-71 | timestamps compare by seconds first, then by fraction |
| `Ntp64.DefaultIsLeast` | src/ntp64.rs:310-314 | the default timestamp is below or equal to every timestamp, and `NTP64(1) > NTP64::default()` |
| `Ntp64.Add` | src/ntp64.rs:147-149 | `NTP64 + NTP64` is the exact sum of the raw values when it fits, and otherwise the sum less 2^64 |
| `Ntp64.AddU64` | src/ntp64.rs:183-185 | `NTP64 + u64` is the exact sum when it fits, and otherwise the sum less 2^64 |
| `Ntp64.Sub` | src/ntp64.rs:199-201 | `NTP64 - NTP64` is the exact difference when it is not negative, and otherwise the difference plus 2^64 |
| `Ntp64.SubU64` | src/ntp64.rs:235-237 | `NTP64 - u64` is the exact difference when it is not negative, and otherwise the difference plus 2^64 |
| `Ntp64.OffsetIsTimestamp` | src/ntp64.rs:179-186 | adding or subtracting a raw offset gives the same result as adding or subtracting the timestamp with that raw value |
| `Ntp64.AddSubCancel` | src/ntp64.rs:231-238 | `(t + k) - k == t` and `(t - k) + k == t` for every timestamp and offset, with or without wrap-around |
| `Ntp64.Elapsed` | src/ntp64.rs:195-202 | when `b <= a`, `a - b` does not wrap: it is the exact elapsed span |
| `Ntp64.SubAddCancel` | src/ntp64.rs:143-150 | for all timestamps, `b + (a - b) == a`: the wrap-arounds of `-` and `+` cancel |
| `Ntp64.AddU64Advances` | src/ntp64.rs:183-185 | advancing by a positive offset that does not overflow gives a strictly later timestamp |
| `Ntp64.Place.AddAssign` | src/ntp64.rs:188-193 | after `t += k`, the place holds what `t + k` returns |
| `Ntp64.Place.SubAssign` | src/ntp64.rs:240-245 | after `t -= k`, the place holds what `t - k` returns |
| `Ntp64.RefAdd` | src/ntp64.rs:152-159 | `&a + b` returns the same value as the by-value `a + b` |
| `Ntp64.AddRef` | src/ntp64.rs:161-168 | `a + &b` returns the same value as the by-value `a + b` |
| `Ntp64.RefAddRef` | src/ntp64.rs:170-177 | `&a + &b` returns the same value as the by-value `a + b` |
| `Ntp64.RefSub` | src/ntp64.rs:204-211 | `&a - b` returns the same value as the by-value `a - b` |
| `Ntp64.SubRef` | src/ntp64.rs:213-220 | `a - &b` returns the same value as the by-value `a - b` |
| `Ntp64.RefSubRef` | src/ntp64.rs:222-229 | `&a - &b` returns the same value as the by-value `a - b` |
| `Ntp64.Display` | src/ntp64.rs:266-268 | `Display` without the alternate flag writes digits only, with no sign and no leading zero, denoting the raw value |
| `Ntp64.DisplayNoStd` | src/ntp64.rs:259-269 | without `std`, `Display` writes the decimal form whether or not the alternate flag is set |
| `Ntp64.Debug` | src/ntp64.rs:272-276 | `Debug` writes the same decimal form as `Display`, whatever the alternate flag |
| `Ntp64.FromStr` | src/ntp64.rs:291-295 | `from_str` succeeds exactly when `u64::from_str` does, with that value; otherwise the error's cause is `Invalid NTP64 time : '<s>' (must be a u64)` |
| `Ntp64.DisplayRoundTrip` | src/ntp64.rs:326-337 | for every timestamp `t`, `from_str(t.to_string()) == Ok(t)` |
| `Ntp64.CanonicalRoundTrip` | src/ntp64.rs:55-56 | any text in the rendered form (digits, no leading zero) that parses is the rendering of the timestamp it parses to; together with `DisplayRoundTrip`, the decimal form is a bijection |
| `Ntp64.DisplayInjective` | src/ntp64.rs:56 | distinct timestamps render as distinct text |
| `Ntp64.FromStrRejects` | src/ntp64.rs:291-295 | `""` and `"abc"` are rejected, with causes `Invalid NTP64 time : '' (must be a u64)` and `Invalid NTP64 time : 'abc' (must be a u64)` |
| `Ntp64.CauseNamesText` | src/ntp64.rs:293 | the cause quotes the rejected text in full, between 22 fixed characters before it and 17 after it |
| `Ntp64.FromStrRejectsOverflow` | src/ntp64.rs:291-295 | the decimal text of every number above 2^64 - 1 is rejected, with the cause naming the text |
| `Ntp64.DisplayExample` | src/ntp64.rs:255-256 | `NTP64(7386690599959157260)` displays as `7386690599959157260` |
| `Decimal.RenderIsCanonical` | src/ntp64.rs:267 | the decimal rendering of `n` is digits only, has no leading zero unless it is `0`, and denotes `n` |
| `Decimal.ParseU64` | src/ntp64.rs:292 | `u64::from_str` rejects empty text; any accepted text is an optional `+` followed by digits only |
| `Decimal.ParseRender` | src/ntp64.rs:292 | parsing the rendering of a `u64` gives it back |
| `Decimal.RenderValue` | src/ntp64.rs:267 | rendering the value of text in the canonical form gives the text back |
| `Decimal.ParseLeadingZero` | src/ntp64.rs:292 | an extra leading zero does not change the outcome of parsing digits |
| `Decimal.ParsePlus` | src/ntp64.rs:292 | a single leading `+` does not change the outcome, unless the rest is empty or starts with another `+` |
| `Decimal.ParseRejectsNonDigit` | src/ntp64.rs:292 | text holding a character that is neither a digit nor a leading `+` is rejected; `-` included |
| `Decimal.ParseDigits` | src/ntp64.rs:292 | non-empty digit text denoting a value below 2^64 is accepted, as that value (leading zeros included) |
| `Decimal.ParseRejectsOverflow` | src/ntp64.rs:292 | digit strings denoting 2^64 or more are rejected |
| `Durations.New` | src/ntp64.rs:109 | `Duration::new` panics exactly when carrying the whole seconds out of the nanoseconds overflows; otherwise it keeps the total span; below one second of nanoseconds it stores its arguments as given |

## Left out

- RFC 3339 rendering and parsing are not modelled. This covers `to_system_time`, `to_string_rfc3339_lossy`, `parse_rfc3339` and the alternate `{:#}` branch of `Display` when `std` is enabled (src/ntp64.rs:112-140, 261-263). They rest on the `humantime` crate and on `SystemTime`/`UNIX_EPOCH`, whose calendar logic is not part of this model. The `no_std` fallback of that branch is modelled (`DisplayNoStd`).
- `as_secs_f64` and its precision test (src/ntp64.rs:87-91, 317-323) are left out: they use floating point, and the test uses `CMASK` from the clock component.
- `CSIZE`/`CMASK`, the sizing of the logical counter, belong to the clock component (src/lib.rs is not part of this model).
- The serde and defmt derives and `Hash` are left out. They are serialization and hashing plumbing with no behaviour of their own here.
- A debug build's overflow panic in `+` and `-` is not modelled; arithmetic wraps as in a release build. `Add`, `AddU64`, `Sub` and `SubU64` state the exact result exactly when a debug build would not panic.
- The bit operations are modelled by their arithmetic meaning on non-negative integers, not on bit-vectors.
- `u64::from_str` distinguishes kinds of error (empty, invalid digit, overflow). `FromStr` discards the kind, so the model does not keep it.
- The randomized round-trip test and the regex-based RFC 3339 test are not modelled as code. The round-trip property they assert is proved as `DisplayRoundTrip`; the RFC 3339 one is out of scope with the rest of that form.
- `&NTP64` and `&mut NTP64` are modelled as a heap object `Place`. Rust's guarantee that a `&mut` place is not aliased has no counterpart; nothing in the model depends on it.
