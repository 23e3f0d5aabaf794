/** The validity-window predicates of `src/SslCertificate.php`, over Unix
    timestamps in seconds. The current instant is a parameter. */
module Validity {

  /** The certificate's `validFrom_time_t` and `validTo_time_t`. */
  datatype Window = Window(validFrom: int, validTo: int)

  /** Carbon's `between(a, b)` with its default inclusive comparison. Carbon
      swaps the bounds when the first is later than the second. */
  predicate Between(t: int, a: int, b: int) {
    if a > b then b <= t <= a else a <= t <= b
  }

  /** The window is as issued: it does not end before it starts. */
  predicate WellFormed(w: Window) {
    w.validFrom <= w.validTo
  }

  /** `isValidDate(t)`: in a well-formed window, between its two ends, both
      included; a reversed window is read with its ends swapped. */
  function IsValidDate(w: Window, t: int): (r: bool)
    ensures WellFormed(w) ==> (r <==> w.validFrom <= t <= w.validTo)
    ensures !WellFormed(w) ==> (r <==> w.validTo <= t <= w.validFrom)
  {
    Between(t, w.validFrom, w.validTo)
  }

  /** `isExpired()`: the expiry instant lies strictly in the past. */
  predicate IsExpired(w: Window, now: int) {
    w.validTo < now
  }

  // ----- Properties -----

  /** A certificate is expired exactly after its last valid instant, and an
      expired certificate is not valid. */
  lemma ExpiredIsNotValid(w: Window, now: int)
    requires WellFormed(w)
    ensures IsExpired(w, now) ==> !IsValidDate(w, now)
    ensures IsValidDate(w, now) ==> !IsExpired(w, now)
    ensures IsExpired(w, now) <==> now > w.validTo
  {
  }

  /** Once expired, a certificate stays expired. */
  lemma ExpiryIsPermanent(w: Window, now: int, later: int)
    requires IsExpired(w, now) && now <= later
    ensures IsExpired(w, later)
  {
  }

  /** The valid dates of a window form an interval: any date between two
      valid dates is valid. */
  lemma ValidDatesConvex(w: Window, t1: int, t: int, t2: int)
    requires IsValidDate(w, t1) && IsValidDate(w, t2) && t1 <= t <= t2
    ensures IsValidDate(w, t)
  {
  }
}
