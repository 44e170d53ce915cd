/**
  Status codes: the raw status read from the status line and the enumerated
  `StatusCode` derived from it. The enumeration itself is declared in the
  status module, which is not part of this model; here it is the set of
  discriminants it declares, passed in as `enumerated`.
*/
module Status {
  import opened Wrappers

  newtype U16 = x: int | 0 <= x < 0x1_0000

  /** `RawStatus(u16, reason)`: the numeric code and reason phrase exactly as read. */
  datatype RawStatus = RawStatus(code: U16, reason: string)

  /** A value of the enumerated `StatusCode`, identified by its discriminant. */
  datatype StatusCode = StatusCode(code: U16)

  /** The enumeration has a variant for this status. */
  predicate Enumerated(enumerated: set<U16>, s: StatusCode) {
    s.code in enumerated
  }

  /** `FromPrimitive::from_u16(n)` derived for a fieldless enumeration: the
      variant whose discriminant is `n`, if the enumeration declares one. */
  function FromU16(enumerated: set<U16>, n: U16): (r: Option<StatusCode>)
    ensures r.Some? <==> n in enumerated
    ensures r.Some? ==> Enumerated(enumerated, r.value) && r.value.code == n
  {
    if n in enumerated then Some(StatusCode(n)) else None
  }

  /** Mapping a variant back to its discriminant and forward again gives the
      same variant: `from_u16` is the inverse of `as u16` on the enumeration. */
  lemma FromU16OfCode(enumerated: set<U16>, s: StatusCode)
    requires Enumerated(enumerated, s)
    ensures FromU16(enumerated, s.code) == Some(s)
  {
  }
}
