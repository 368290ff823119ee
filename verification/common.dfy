/** Vocabulary shared by every module of the model: failure-compatible
    wrappers, the byte type and the 32-bit sentinel the source's scans use. */
module Common {

  /** The conventional Some/None datatype; `None` also stands for a panic of the source. */
  datatype Option<+T> = None | Some(value: T)

  /** A success value or an error value, as Rust's `Result`. */
  datatype Result<+R, +E> = Success(value: R) | Failure(error: E)

  /** An unsigned 8-bit value (Rust `u8`, Python `bytes` element). */
  type byte = bv8

  /** `u32::MAX`, the starting value of every "best difference so far" in the source. */
  const U32_MAX: nat := 0xFFFF_FFFF

  /** A difference as the source holds it in a `u32` that a scan can still improve on. */
  type Score = d: nat | d < U32_MAX

  /** Multiplication by a natural number is monotone. */
  lemma MulMonotone(a: nat, b: nat, c: nat)
    requires a <= b
    ensures a * c <= b * c
  {
  }

  /** A strict inequality between multiples of the same factor holds between the multiplicands. */
  lemma MulCancel(a: nat, b: nat, c: nat)
    requires a * c < b * c
    ensures a < b
  {
    if b <= a {
      MulMonotone(b, a, c);
    }
  }

  /** A number below 256 survives the conversion to a byte. */
  lemma NatAsByte(n: nat)
    requires n < 256
    ensures (n as byte) as nat == n
  {
    assert n % 256 == n;
  }

  /** Decimal rendering of a natural number, as Rust's `{}` formats an unsigned integer. */
  function NatToString(n: nat): (s: string)
    ensures |s| > 0
    ensures forall i :: 0 <= i < |s| ==> '0' <= s[i] <= '9'
    decreases n
  {
    var digit := [('0' as int + n % 10) as char];
    if n < 10 then digit else NatToString(n / 10) + digit
  }

  /** Reads a decimal string back; the partner of `NatToString`. */
  function DecimalValue(s: string): int
    decreases |s|
  {
    if |s| == 0 then 0 else 10 * DecimalValue(s[..|s| - 1]) + (s[|s| - 1] as int - '0' as int)
  }

  lemma {:induction false} NatToStringRoundTrip(n: nat)
    ensures DecimalValue(NatToString(n)) == n
    decreases n
  {
    var s := NatToString(n);
    if n >= 10 {
      NatToStringRoundTrip(n / 10);
      assert s[..|s| - 1] == NatToString(n / 10);
    }
  }
}
