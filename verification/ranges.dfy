/**
 Foundation's `NSRange` and `NSLocationInRange`, over unbounded naturals.
 Locations and lengths are `NSUInteger` in Foundation; the only subtraction the
 membership test performs is guarded so that it never wraps around, so `nat`
 arithmetic computes the same answer.
 */
module NSRanges {

  /** `NSNotFound` on a 64-bit platform: `NSIntegerMax`. */
  const NSNotFound: nat := 0x7FFF_FFFF_FFFF_FFFF

  /** A run of UTF-16 code units: `length` units starting at `location`. */
  datatype NSRange = NSRange(location: nat, length: nat)

  /** What a failed `NSString` search returns: `{NSNotFound, 0}`. */
  const NotFoundRange: NSRange := NSRange(NSNotFound, 0)

  /** `NSMaxRange`: one past the last location the range covers. */
  function MaxRange(r: NSRange): nat {
    r.location + r.length
  }

  /**
   `NSLocationInRange(i, r)`, written as Foundation writes it: the location must
   not lie before the range start, and its unsigned distance from the start must
   be below the length. The contract states the half-open interval this means.
   */
  function InRange(i: nat, r: NSRange): (b: bool)
    ensures b <==> r.location <= i < r.location + r.length
    ensures r.length == 0 ==> !b
  {
    !(i < r.location) && i - r.location < r.length
  }
}
