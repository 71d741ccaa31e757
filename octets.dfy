/**
 * Octets as the server handles them: every buffer in server.c is an array of
 * C `char`, one octet per element. ASCII literals are turned into octets with
 * `Ascii`, and `Decimal` is the `%ld` rendering of a non-negative size.
 */
module Octets {
  /** One element of a C `char` buffer. */
  newtype byte = x: int | 0 <= x < 256

  type Bytes = seq<byte>

  /** `BUFFER_SIZE`: the size of the receive buffer, the header buffer and the file buffer. */
  const BUFFER_SIZE: nat := 2048

  /** The octets of a literal; every literal of the server is ASCII, so no character is reduced. */
  function Ascii(s: string): (r: Bytes)
    ensures |r| == |s|
  {
    seq(|s|, i requires 0 <= i < |s| => (s[i] as int % 256) as byte)
  }

  lemma AsciiAppend(a: string, b: string)
    ensures Ascii(a + b) == Ascii(a) + Ascii(b)
  {
    assert forall i :: 0 <= i < |a| + |b| ==> Ascii(a + b)[i] == (Ascii(a) + Ascii(b))[i];
  }

  const ZERO: byte := 48

  predicate IsDigit(b: byte) { ZERO <= b <= ZERO + 9 }

  /** `%ld` of a non-negative value: decimal digits, most significant first, no leading zero. */
  function Decimal(n: nat): (r: Bytes)
    ensures |r| >= 1
    ensures forall i :: 0 <= i < |r| ==> IsDigit(r[i])
    ensures r[0] == ZERO <==> n == 0
  {
    if n < 10 then [ZERO + n as byte] else Decimal(n / 10) + [ZERO + (n % 10) as byte]
  }

  /** The value a reader of the header gets back from a run of decimal digits. */
  function DecimalValue(digits: Bytes): nat
    requires forall i :: 0 <= i < |digits| ==> IsDigit(digits[i])
  {
    if digits == [] then 0
    else
      var last := digits[|digits| - 1];
      assert IsDigit(last);
      10 * DecimalValue(digits[..|digits| - 1]) + (last - ZERO) as int
  }

  /** Reading back the rendered digits gives the value that was rendered. */
  lemma {:induction false} DecimalRoundTrip(n: nat)
    ensures DecimalValue(Decimal(n)) == n
  {
    if n >= 10 {
      var d := Decimal(n);
      assert d[..|d| - 1] == Decimal(n / 10);
      DecimalRoundTrip(n / 10);
    }
  }

  /** Different sizes are rendered differently. */
  lemma DecimalInjective(m: nat, n: nat)
    requires Decimal(m) == Decimal(n)
    ensures m == n
  {
    DecimalRoundTrip(m);
    DecimalRoundTrip(n);
  }
}
