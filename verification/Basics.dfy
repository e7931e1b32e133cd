/** Shared values: optional results and the unsigned 64-bit arithmetic of the Rust crates. */
module Basics {

  datatype Option<+T> = None | Some(value: T)

  datatype Result<+T, +E> = Ok(value: T) | Err(error: E)

  const U64_MAX: int := 0xFFFF_FFFF_FFFF_FFFF

  type U64 = x: int | 0 <= x <= U64_MAX

  /** `u64::saturating_add` */
  function SaturatingAdd(a: U64, b: U64): (r: U64)
    ensures r >= a
    ensures a < U64_MAX && b > 0 ==> r > a
  {
    if a + b <= U64_MAX then a + b else U64_MAX
  }

  /** A lifetime of zero milliseconds is treated as one. */
  function Deadline(now: U64, ttl: U64): (r: U64)
    ensures r >= now
    ensures now < U64_MAX ==> r > now
  {
    SaturatingAdd(now, if ttl < 1 then 1 else ttl)
  }

  /** `t` lies the lifetime after `now`, one millisecond at least, as far as the clock reaches. */
  predicate IsDeadline(t: U64, now: U64, ttl: U64) {
    var lifetime: int := if ttl == 0 then 1 else ttl;
    t == now + lifetime || (t == U64_MAX && U64_MAX < now + lifetime)
  }

  lemma DeadlineIs(now: U64, ttl: U64)
    ensures IsDeadline(Deadline(now, ttl), now, ttl)
  {
  }

  /** The characters that `char::is_whitespace` accepts. */
  predicate IsWhitespace(c: char) {
    || c == ' ' || ('\t' <= c <= '\r')
    || c == '\U{85}' || c == '\U{A0}' || c == '\U{1680}'
    || '\U{2000}' <= c <= '\U{200A}'
    || c == '\U{2028}' || c == '\U{2029}' || c == '\U{202F}'
    || c == '\U{205F}' || c == '\U{3000}'
  }

  /** `text.trim().is_empty()` */
  predicate IsBlank(text: string) {
    forall i :: 0 <= i < |text| ==> IsWhitespace(text[i])
  }
}
