/**
 * Seat identifiers "row-seat" (template literal `${row}-${seat}`) and their
 * parsing back with split('-').map(Number), as the seat map uses them.
 */
module SeatIds {
  import opened Wrappers
  import opened Text

  predicate IsDigit(c: char) {
    '0' <= c <= '9'
  }

  predicate AllDigits(s: string) {
    forall k :: 0 <= k < |s| ==> IsDigit(s[k])
  }

  function DigitChar(d: nat): (c: char)
    requires d < 10
    ensures IsDigit(c) && c as int - '0' as int == d
  {
    ('0' as int + d) as char
  }

  /** JavaScript's decimal rendering of a non-negative integer. */
  function NatToDecimal(n: nat): (r: string)
    ensures |r| >= 1 && AllDigits(r)
    ensures r[0] == '0' ==> n == 0
    decreases n
  {
    if n < 10 then [DigitChar(n)] else NatToDecimal(n / 10) + [DigitChar(n % 10)]
  }

  /** The value of a run of decimal digits (the empty run is 0). */
  function DecimalValue(s: string): nat
    requires AllDigits(s)
  {
    if s == [] then 0
    else DecimalValue(s[..|s| - 1]) * 10 + (s[|s| - 1] as int - '0' as int)
  }

  /** JavaScript's Number(s) on a string: None stands for NaN. */
  function Number(s: string): (r: Option<nat>)
    ensures r.Some? <==> AllDigits(s)
  {
    if AllDigits(s) then Some(DecimalValue(s)) else None
  }

  /** The id of the seat at a 1-based row and seat number. */
  function SeatId(row: nat, seat: nat): string {
    NatToDecimal(row) + "-" + NatToDecimal(seat)
  }

  /**
   * `const [r, s] = id.split('-').map(Number)`: the first two pieces as
   * numbers; None where JavaScript would get NaN or undefined.
   */
  function ParseSeatId(id: string): (r: Option<(nat, nat)>)
    ensures var parts := Split(id, '-');
            r.Some? <==> |parts| >= 2 && AllDigits(parts[0]) && AllDigits(parts[1])
  {
    var parts := Split(id, '-');
    if |parts| < 2 then None
    else
      match (Number(parts[0]), Number(parts[1]))
      case (Some(r), Some(s)) => Some((r, s))
      case _ => None
  }

  lemma {:induction false} DecimalRoundTrip(n: nat)
    ensures DecimalValue(NatToDecimal(n)) == n
    decreases n
  {
    if n >= 10 {
      DecimalRoundTrip(n / 10);
      var s := NatToDecimal(n);
      assert s[..|s| - 1] == NatToDecimal(n / 10);
    }
  }

  lemma NoDashInDecimal(n: nat)
    ensures '-' !in NatToDecimal(n)
  {
  }

  /** Splitting a seat id at '-' gives exactly the two decimal renderings. */
  lemma SeatIdSplits(row: nat, seat: nat)
    ensures Split(SeatId(row, seat), '-') == [NatToDecimal(row), NatToDecimal(seat)]
  {
    var a, b := NatToDecimal(row), NatToDecimal(seat);
    NoDashInDecimal(row);
    NoDashInDecimal(seat);
    assert SeatId(row, seat) == a + ['-'] + b;
    SplitAtFirst(a, '-', b);
    SplitWithout(b, '-');
  }

  /** Parsing a generated id recovers the row and seat it was built from. */
  lemma SeatIdRoundTrip(row: nat, seat: nat)
    ensures ParseSeatId(SeatId(row, seat)) == Some((row, seat))
  {
    SeatIdSplits(row, seat);
    DecimalRoundTrip(row);
    DecimalRoundTrip(seat);
  }

  /** Distinct seats have distinct ids. */
  lemma SeatIdInjective(r1: nat, s1: nat, r2: nat, s2: nat)
    ensures SeatId(r1, s1) == SeatId(r2, s2) <==> r1 == r2 && s1 == s2
  {
    SeatIdRoundTrip(r1, s1);
    SeatIdRoundTrip(r2, s2);
  }
}
