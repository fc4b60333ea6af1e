/**
 * What the event pages use of JavaScript's `Date`: an instant is an integer
 * number of milliseconds since the epoch, and `toISOString` renders the UTC
 * calendar fields of an instant in the Date Time String Format of
 * ECMAScript (the profile of section 5.6 of RFC 3339 with milliseconds and
 * a `Z` suffix). Which calendar fields an instant has is not modelled here;
 * the pages receive that breakdown as a parameter.
 */
module JsDate {
  import opened JsText

  /** The UTC calendar fields of an instant. */
  datatype Timestamp = Timestamp(year: int, month: nat, day: nat,
                                 hour: nat, minute: nat, second: nat, millis: nat)
  {
    /** The ranges a Date's fields take (years as far as a Date reaches). */
    predicate Valid() {
      && -271821 <= year <= 275760
      && 1 <= month <= 12 && 1 <= day <= 31
      && hour < 24 && minute < 60 && second < 60 && millis < 1000
    }
  }

  function Pow10(n: nat): nat {
    if n == 0 then 1 else 10 * Pow10(n - 1)
  }

  lemma {:induction false} Pow10Values()
    ensures Pow10(2) == 100 && Pow10(3) == 1000 && Pow10(4) == 10000 && Pow10(6) == 1000000
  {
    assert Pow10(1) == 10;
    assert Pow10(5) == 100000 by { assert Pow10(4) == 10000; }
  }

  lemma {:induction false} NatToStringFits(n: nat, w: nat)
    requires 1 <= w && n < Pow10(w)
    ensures |NatToString(n)| <= w
    decreases w
  {
    if n >= 10 {
      assert w >= 2;
      NatToStringFits(n / 10, w - 1);
    }
  }

  /** `n` in decimal, zero-padded to `width` digits. */
  function Pad(n: nat, width: nat): string {
    ZeroPad(NatToString(n), width)
  }

  /** A number below 10^width takes exactly `width` digits and reads back. */
  lemma {:induction false} PadReadsBack(n: nat, width: nat)
    requires 1 <= width && n < Pow10(width)
    ensures |Pad(n, width)| == width
    ensures AllDigits(Pad(n, width)) && DigitsValue(Pad(n, width)) == n
  {
    NatToStringFits(n, width);
    DigitsValueZeroPad(NatToString(n), width);
  }

  /** The year as `toISOString` writes it: four digits for years 0 to 9999,
      otherwise a sign and six digits. */
  function YearText(y: int): string {
    if 0 <= y <= 9999 then Pad(y, 4)
    else if y < 0 then "-" + Pad(-y, 6)
    else "+" + Pad(y, 6)
  }

  /** `date.toISOString()`: YYYY-MM-DDTHH:mm:ss.sssZ. */
  function ToIsoString(t: Timestamp): string {
    YearText(t.year) + ("-" + (Pad(t.month, 2) + ("-" + (Pad(t.day, 2)
      + ("T" + (Pad(t.hour, 2) + (":" + (Pad(t.minute, 2) + (":" + (Pad(t.second, 2)
      + ("." + (Pad(t.millis, 3) + "Z"))))))))))))
  }
}
