/**
 * The helpers of the admin events page: conversions between the time and
 * date texts of the input controls ("HH:MM", "yyyy-mm-dd") and of the
 * stored event ("H:MMAM", "mm/dd/yyyy"), the conversions made when an event
 * is saved and when it is loaded back for editing, the Google Calendar
 * link, and the storage file name of an event image.
 */
module AdminEvents {
  import opened JsText
  import opened JsDate

  /** An event as the page holds it (the table's `id` is only passed on). */
  datatype EventRecord = EventRecord(title: string, description: string, date: string,
                                     time: string, location: string, image: string)

  /** A destructured element of a split: JavaScript gives `undefined` for a
      missing one, which a template literal writes as "undefined". */
  function Part(parts: seq<string>, k: nat): string {
    if k < |parts| then parts[k] else "undefined"
  }

  // ---------------------------------------------------------------------------
  // convertMilitaryTo12

  /** The hour on a 12-hour dial: the remainder by 12, with 0 shown as 12. */
  function Hour12(h: int): int {
    var r := JsRem(h, 12);
    if r == 0 then 12 else r
  }

  function MeridiemOf(h: int): string {
    if h >= 12 then "PM" else "AM"
  }

  /** "HH:MM" to "H:MMAM"/"H:MMPM"; nothing is validated, and a hour that
      does not parse is written "NaN". */
  function ConvertMilitaryTo12(time: string): string {
    var parts := Split(time, ":");
    var minute := Part(parts, 1);
    match ParseInt(parts[0])
    case None => "NaN:" + minute + "AM"
    case Some(h) => IntToString(Hour12(h)) + ":" + minute + MeridiemOf(h)
  }

  /** On "HH:MM" the result is the hour modulo 12 (0 shown as 12) without a
      leading zero, the minutes as written, and PM exactly from hour 12 on. */
  lemma {:induction false} MilitaryTo12OnClockText(hh: string, mm: string)
    requires hh != [] && AllDigits(hh) && ':' !in mm
    ensures var h := DigitsValue(hh);
            var h12 := if h % 12 == 0 then 12 else h % 12;
            && 1 <= h12 <= 12
            && ConvertMilitaryTo12(hh + ":" + mm)
               == NatToString(h12) + ":" + mm + (if h >= 12 then "PM" else "AM")
  {
    assert ':' !in hh by {
      forall i | 0 <= i < |hh| ensures hh[i] != ':' { assert IsDigit(hh[i]); }
    }
    SplitTwo(hh, mm, ':');
    ParseIntDigits(hh);
  }

  // ---------------------------------------------------------------------------
  // convertTo24Hour

  /** What the pattern captures: the hour digits, the minute digits and the
      AM/PM marker as written. */
  datatype Clock12 = Clock12(hours: string, minutes: string, modifier: string)

  /** "AM" or "PM" in any letter case (the `i` flag). */
  predicate IsMeridiem(m: string) {
    |m| == 2 && (m[0] in "aApP") && (m[1] in "mM")
  }

  /** The text matches `^(\d{1,2}):(\d{2})\s*(AM|PM)$` (flag `i`) with the
      given captures and the white space between minutes and marker. */
  predicate Matches12(s: string, h: string, mm: string, w: string, mer: string) {
    && 1 <= |h| <= 2 && AllDigits(h)
    && |mm| == 2 && AllDigits(mm)
    && AllWhitespace(w) && IsMeridiem(mer)
    && s == h + ":" + mm + w + mer
  }

  /** `time.match(/^(\d{1,2}):(\d{2})\s*(AM|PM)$/i)`. */
  function Match12Hour(s: string): (r: Option<Clock12>)
    ensures r.Some? ==>
              |s| >= |r.value.hours| + 5 &&
              Matches12(s, r.value.hours, r.value.minutes,
                        s[|r.value.hours| + 3..|s| - 2], r.value.modifier)
  {
    var n := if |s| >= 2 && s[1] == ':' then 1 else 2;
    if && |s| >= n + 5 && s[n] == ':'
       && AllDigits(s[..n]) && AllDigits(s[n + 1..n + 3])
       && AllWhitespace(s[n + 3..|s| - 2]) && IsMeridiem(s[|s| - 2..])
    then
      assert s == s[..n] + ":" + s[n + 1..n + 3] + s[n + 3..|s| - 2] + s[|s| - 2..];
      Some(Clock12(s[..n], s[n + 1..n + 3], s[|s| - 2..]))
    else None
  }

  /** Every text of the pattern's language is matched, with its captures. */
  lemma {:induction false} MatchComplete(s: string, h: string, mm: string, w: string, mer: string)
    requires Matches12(s, h, mm, w, mer)
    ensures Match12Hour(s) == Some(Clock12(h, mm, mer))
  {
    var n := |h|;
    assert s[n] == ':';
    if n == 2 {
      assert s[1] == h[1];
      assert IsDigit(h[1]);
    }
    assert s[..n] == h;
    assert s[n + 1..n + 3] == mm;
    assert s[n + 3..|s| - 2] == w;
    assert s[|s| - 2..] == mer;
  }

  /** The hour after the AM/PM rules: PM adds 12 unless the hour is 12, and
      12 AM becomes 0. No range check. */
  function To24(hours: nat, upper: string): nat {
    var h := if upper == "PM" && hours != 12 then hours + 12 else hours;
    if upper == "AM" && h == 12 then 0 else h
  }

  /** "H:MM AM" / "H:MMPM" to "HH:MM"; any other text comes back unchanged. */
  function ConvertTo24Hour(time: string): (r: string)
    ensures Match12Hour(time).None? ==> r == time
  {
    match Match12Hour(time)
    case None => time
    case Some(c) =>
      var hours := To24(DigitsValue(c.hours), ToUpper(c.modifier));
      ZeroPad(IntToString(hours), 2) + ":" + c.minutes
  }

  lemma {:induction false} UpperMeridiem(mer: string)
    requires IsMeridiem(mer)
    ensures ToUpper(mer) == (if mer[0] in "pP" then "PM" else "AM")
  {
  }

  /** The 24-hour clock hour of a dial hour and a marker: PM adds 12 except
      to 12, and 12 AM is 0. */
  function DialTo24(v: nat, pm: bool): nat {
    if pm && v != 12 then v + 12 else if !pm && v == 12 then 0 else v
  }

  /** On a matching text: a two-digit (or longer) hour, a colon and the
      minutes as written; larger hours are not rejected ("13:00PM" gives
      "25:00"). */
  lemma {:induction false} To24HourOnMatch(s: string, h: string, mm: string, w: string, mer: string)
    requires Matches12(s, h, mm, w, mer)
    ensures ConvertTo24Hour(s)
            == ZeroPad(NatToString(DialTo24(DigitsValue(h), mer[0] in "pP")), 2) + ":" + mm
  {
    MatchComplete(s, h, mm, w, mer);
    UpperMeridiem(mer);
    var hours := To24(DigitsValue(h), ToUpper(mer));
    assert hours == DialTo24(DigitsValue(h), mer[0] in "pP");
    assert ConvertTo24Hour(s) == ZeroPad(IntToString(hours), 2) + ":" + mm;
  }

  lemma {:induction false} NatToStringTwoDigits(a: nat, b: nat)
    requires 1 <= a < 10 && b < 10
    ensures NatToString(10 * a + b) == [DigitChar(a), DigitChar(b)]
  {
    var n := 10 * a + b;
    assert n / 10 == a;
    assert n % 10 == b;
    assert NatToString(n) == NatToString(n / 10) + [DigitChar(n % 10)];
    assert NatToString(a) == [DigitChar(a)];
  }

  /** The value of a two-digit text. */
  lemma {:induction false} TwoDigitsValue(d: string)
    requires |d| == 2 && AllDigits(d)
    ensures DigitsValue(d) == 10 * (d[0] as int - '0' as int) + (d[1] as int - '0' as int)
  {
    assert IsDigit(d[0]) && IsDigit(d[1]);
    assert d == [d[0]] + [d[1]];
    DigitsValueAppend([d[0]], d[1]);
  }

  lemma {:induction false} PadOneDigit(d: string)
    requires |d| == 2 && d[0] == '0'
    ensures ZeroPad([d[1]], 2) == d
  {
    var r := ZeroPad([d[1]], 2);
    assert r[0] == '0' && r[1] == d[1];
  }

  lemma {:induction false} TwoDigitsBackLeadingZero(d: string)
    requires |d| == 2 && AllDigits(d) && d[0] == '0'
    ensures ZeroPad(NatToString(DigitsValue(d)), 2) == d
  {
    assert IsDigit(d[1]);
    TwoDigitsValue(d);
    var b := d[1] as int - '0' as int;
    assert DigitsValue(d) == b;
    assert NatToString(b) == [DigitChar(b)];
    assert DigitChar(b) == d[1];
    PadOneDigit(d);
  }

  lemma {:induction false} TwoDigitsBackTens(d: string)
    requires |d| == 2 && AllDigits(d) && d[0] != '0'
    ensures ZeroPad(NatToString(DigitsValue(d)), 2) == d
  {
    assert IsDigit(d[0]) && IsDigit(d[1]);
    TwoDigitsValue(d);
    var a := d[0] as int - '0' as int;
    var b := d[1] as int - '0' as int;
    NatToStringTwoDigits(a, b);
    assert [DigitChar(a), DigitChar(b)] == d;
  }

  /** A two-digit text is what padding its value to two digits gives. */
  lemma {:induction false} TwoDigitsBack(d: string)
    requires |d| == 2 && AllDigits(d)
    ensures ZeroPad(NatToString(DigitsValue(d)), 2) == d
  {
    if d[0] == '0' {
      TwoDigitsBackLeadingZero(d);
    } else {
      TwoDigitsBackTens(d);
    }
  }

  /** The stored 12-hour text of hour `v` (0 to 23) and minutes `mm`. */
  function Text12(v: nat, mm: string): string {
    var h12 := if v % 12 == 0 then 12 else v % 12;
    NatToString(h12) + ":" + mm + (if v >= 12 then "PM" else "AM")
  }

  /** The dial hour and marker of Text12 denote the hour again, and the dial
      and marker of a 24-hour hour are the ones it came from. */
  lemma {:induction false} DialBack(v: nat)
    requires v <= 23
    ensures var h12 := if v % 12 == 0 then 12 else v % 12;
            DialTo24(h12, v >= 12) == v
  {
  }

  lemma {:induction false} Text12OfDial(v: nat, pm: bool, mm: string)
    requires 1 <= v <= 12
    ensures DialTo24(v, pm) <= 23
    ensures Text12(DialTo24(v, pm), mm) == NatToString(v) + ":" + mm + (if pm then "PM" else "AM")
  {
    var hours := DialTo24(v, pm);
    var h12 := if hours % 12 == 0 then 12 else hours % 12;
    assert h12 == v;
    assert (hours >= 12) == pm;
  }

  /** A canonical 12-hour text ("2:30PM") converts to the hour the dial and
      marker denote. */
  lemma {:induction false} To24OfCanonical(h12: nat, mm: string, pm: bool)
    requires 1 <= h12 <= 12 && |mm| == 2 && AllDigits(mm)
    ensures ConvertTo24Hour(NatToString(h12) + ":" + mm + (if pm then "PM" else "AM"))
            == ZeroPad(NatToString(DialTo24(h12, pm)), 2) + ":" + mm
  {
    var digits := NatToString(h12);
    var mer := if pm then "PM" else "AM";
    var t := digits + ":" + mm + mer;
    assert IsMeridiem(mer);
    assert AllWhitespace("");
    assert Matches12(t, digits, mm, "", mer) by {
      assert t == digits + ":" + mm + "" + mer;
    }
    To24HourOnMatch(t, digits, mm, "", mer);
  }

  lemma {:induction false} To24OfText12(v: nat, mm: string)
    requires v <= 23 && |mm| == 2 && AllDigits(mm)
    ensures ConvertTo24Hour(Text12(v, mm)) == ZeroPad(NatToString(v), 2) + ":" + mm
  {
    var h12 := if v % 12 == 0 then 12 else v % 12;
    To24OfCanonical(h12, mm, v >= 12);
    DialBack(v);
  }

  /** ConvertMilitaryTo12 on "HH:MM" is the stored 12-hour text of HH. */
  lemma {:induction false} MilitaryTo12OfText(hh: string, mm: string)
    requires hh != [] && AllDigits(hh) && |mm| == 2 && AllDigits(mm)
    ensures ConvertMilitaryTo12(hh + ":" + mm) == Text12(DigitsValue(hh), mm)
  {
    assert ':' !in mm by {
      forall i | 0 <= i < |mm| ensures mm[i] != ':' { assert IsDigit(mm[i]); }
    }
    MilitaryTo12OnClockText(hh, mm);
  }

  /** Saving then editing gives the time back: for every "HH:MM" with HH from
      00 to 23, converting to 12-hour text and back is the identity. */
  lemma {:induction false} RoundTrip24(hh: string, mm: string)
    requires |hh| == 2 && AllDigits(hh) && DigitsValue(hh) <= 23
    requires |mm| == 2 && AllDigits(mm)
    ensures ConvertTo24Hour(ConvertMilitaryTo12(hh + ":" + mm)) == hh + ":" + mm
  {
    MilitaryTo12OfText(hh, mm);
    To24OfText12(DigitsValue(hh), mm);
    TwoDigitsBack(hh);
  }

  /** Padding an hour below 24 gives two digits that read back. */
  lemma {:induction false} PadHour(v: nat)
    requires v <= 23
    ensures var hh := ZeroPad(NatToString(v), 2);
            |hh| == 2 && AllDigits(hh) && DigitsValue(hh) == v
  {
    DigitsValueZeroPad(NatToString(v), 2);
  }

  /** Editing then saving normalises the time: a matching 12-hour text with
      an hour from 1 to 12 comes back without leading zero or white space and
      with an upper-case marker. */
  lemma {:induction false} RoundTrip12(s: string, h: string, mm: string, w: string, mer: string)
    requires Matches12(s, h, mm, w, mer) && 1 <= DigitsValue(h) <= 12
    ensures ConvertMilitaryTo12(ConvertTo24Hour(s))
            == NatToString(DigitsValue(h)) + ":" + mm + ToUpper(mer)
  {
    var v := DigitsValue(h);
    var pm := mer[0] in "pP";
    To24HourOnMatch(s, h, mm, w, mer);
    Text12OfDial(v, pm, mm);
    var hours := DialTo24(v, pm);
    PadHour(hours);
    MilitaryTo12OfText(ZeroPad(NatToString(hours), 2), mm);
    UpperMeridiem(mer);
  }

  /** A canonical stored time ("2:30PM") survives editing and saving. */
  lemma {:induction false} RoundTrip12Canonical(n: nat, mm: string, mer: string)
    requires 1 <= n <= 12 && |mm| == 2 && AllDigits(mm) && (mer == "AM" || mer == "PM")
    ensures var s := NatToString(n) + ":" + mm + mer;
            ConvertMilitaryTo12(ConvertTo24Hour(s)) == s
  {
    var h := NatToString(n);
    var s := h + ":" + mm + mer;
    assert s == h + ":" + mm + "" + mer;
    assert IsMeridiem(mer) && AllWhitespace("");
    assert 1 <= |h| <= 2 && AllDigits(h) && DigitsValue(h) == n;
    assert Matches12(s, h, mm, "", mer);
    RoundTrip12(s, h, mm, "", mer);
    assert ToUpper(mer) == mer by { UpperMeridiem(mer); }
  }

  // ---------------------------------------------------------------------------
  // The AM/PM guard of handleEdit and getGoogleCalendarLink

  /** `time.toUpperCase().includes("AM") || time.toUpperCase().includes("PM")`. */
  predicate MentionsMeridiem(time: string) {
    Contains(ToUpper(time), "AM") || Contains(ToUpper(time), "PM")
  }

  /** The time as both callers pass it on: converted only when it mentions
      AM or PM. */
  function GuardedTo24(time: string): string {
    if MentionsMeridiem(time) then ConvertTo24Hour(time) else time
  }

  /** The guard never changes the outcome: a text the pattern matches ends
      in its marker, so it mentions AM or PM, and a text the pattern does not
      match is returned unchanged anyway. */
  lemma {:induction false} GuardIsRedundant(time: string)
    ensures GuardedTo24(time) == ConvertTo24Hour(time)
  {
    match Match12Hour(time)
    case None =>
    case Some(c) =>
      var pre := time[..|time| - 2];
      assert time == pre + c.modifier;
      ToUpperAppend(pre, c.modifier);
      UpperMeridiem(c.modifier);
      ContainsSuffix(ToUpper(pre), ToUpper(c.modifier));
  }

  // ---------------------------------------------------------------------------
  // Dates: convertDateForInput and formatFormData

  /** "m/d/y" to "y-mm-dd"; a text that does not split into three parts at
      "/" comes back unchanged. */
  function ConvertDateForInput(date: string): (r: string)
    ensures |Split(date, "/")| != 3 ==> r == date
  {
    var parts := Split(date, "/");
    if |parts| != 3 then date
    else parts[2] + "-" + ZeroPad(parts[0], 2) + "-" + ZeroPad(parts[1], 2)
  }

  /** The storage date as the form loads it: year first, month and day padded
      to two digits. */
  lemma {:induction false} DateForInputOnStoredDate(m: string, d: string, y: string)
    requires '/' !in m && '/' !in d && '/' !in y
    ensures ConvertDateForInput(m + "/" + d + "/" + y)
            == y + "-" + ZeroPad(m, 2) + "-" + ZeroPad(d, 2)
  {
    SplitThree(m, d, y, '/');
  }

  /** The date the form sends: "y-m-d" to "m/d/y", no padding; missing parts
      are written "undefined". */
  function StorageDate(date: string): string {
    var parts := Split(date, "-");
    Part(parts, 1) + "/" + Part(parts, 2) + "/" + Part(parts, 0)
  }

  /** `formatFormData`: the date to storage form, the time to 12-hour text,
      every other field as it was. */
  function FormatFormData(f: EventRecord): (r: EventRecord)
    ensures r.(date := f.date, time := f.time) == f
    ensures r.time == ConvertMilitaryTo12(f.time)
  {
    f.(date := StorageDate(f.date), time := ConvertMilitaryTo12(f.time))
  }

  /** The date part of the save/edit round trip: "y-mm-dd" to storage form and
      back is the identity when month and day are already two characters. */
  lemma {:induction false} DateRoundTrip(y: string, m: string, d: string)
    requires '-' !in y && '-' !in m && '-' !in d
    requires '/' !in y && '/' !in m && '/' !in d
    requires |m| >= 2 && |d| >= 2
    ensures StorageDate(y + "-" + m + "-" + d) == m + "/" + d + "/" + y
    ensures ConvertDateForInput(StorageDate(y + "-" + m + "-" + d)) == y + "-" + m + "-" + d
  {
    SplitThree(y, m, d, '-');
    DateForInputOnStoredDate(m, d, y);
  }

  /** handleEdit's conversion of a stored event into the form's values. */
  function EditForm(e: EventRecord): (r: EventRecord)
    ensures r.(date := e.date, time := e.time) == e
    ensures r.time == ConvertTo24Hour(e.time)
  {
    GuardIsRedundant(e.time);
    e.(date := ConvertDateForInput(e.date), time := GuardedTo24(e.time))
  }

  /** Saving an event and then opening it for editing fills the form with
      exactly what was entered. */
  lemma {:induction false} SaveThenEdit(f: EventRecord, y: string, m: string, d: string, hh: string, mm: string)
    requires f.date == y + "-" + m + "-" + d
    requires '-' !in y && '-' !in m && '-' !in d
    requires '/' !in y && '/' !in m && '/' !in d
    requires |m| == 2 && |d| == 2
    requires f.time == hh + ":" + mm
    requires |hh| == 2 && AllDigits(hh) && DigitsValue(hh) <= 23
    requires |mm| == 2 && AllDigits(mm)
    ensures EditForm(FormatFormData(f)) == f
  {
    DateRoundTrip(y, m, d);
    RoundTrip24(hh, mm);
  }

  lemma {:induction false} NoCharInPad(s: string, c: char)
    requires c != '0' && c !in s
    ensures c !in ZeroPad(s, 2)
  {
    var z := ZeroPad(s, 2);
    forall i | 0 <= i < |z| ensures z[i] != c {
      if i >= |z| - |s| {
        assert z[i] == z[|z| - |s|..][i - (|z| - |s|)];
      }
    }
  }

  /** Opening a stored event for editing and saving it again pads month and
      day to two digits and normalises the time text, and nothing else. */
  lemma {:induction false} EditThenSave(e: EventRecord, m: string, d: string, y: string,
                     h: string, mm: string, w: string, mer: string)
    requires e.date == m + "/" + d + "/" + y
    requires '/' !in m && '/' !in d && '/' !in y
    requires '-' !in m && '-' !in d && '-' !in y
    requires Matches12(e.time, h, mm, w, mer) && 1 <= DigitsValue(h) <= 12
    ensures FormatFormData(EditForm(e))
            == e.(date := ZeroPad(m, 2) + "/" + ZeroPad(d, 2) + "/" + y,
                  time := NatToString(DigitsValue(h)) + ":" + mm + ToUpper(mer))
  {
    DateForInputOnStoredDate(m, d, y);
    NoCharInPad(m, '-');
    NoCharInPad(d, '-');
    SplitThree(y, ZeroPad(m, 2), ZeroPad(d, 2), '-');
    RoundTrip12(e.time, h, mm, w, mer);
  }

  // ---------------------------------------------------------------------------
  // formatDate: the compact UTC form Google Calendar reads

  predicate IsDropped(c: char) { c == '-' || c == ':' }

  /** `iso.replace(/[-:]|\.\d{3}/g, '')`: scanning from the left, every '-'
      and ':' and every '.' followed by three digits is deleted. */
  function FormatDate(iso: string): (r: string)
    ensures |r| <= |iso|
    decreases |iso|
  {
    if iso == [] then []
    else if IsDropped(iso[0]) then FormatDate(iso[1..])
    else if iso[0] == '.' && |iso| >= 4 && AllDigits(iso[1..4]) then FormatDate(iso[4..])
    else [iso[0]] + FormatDate(iso[1..])
  }

  /** The result has no '-' or ':' left, and every character of it comes
      from the input. */
  lemma {:induction false} FormatDateShape(iso: string)
    ensures forall i :: 0 <= i < |FormatDate(iso)| ==> !IsDropped(FormatDate(iso)[i])
    ensures forall c :: c in FormatDate(iso) ==> c in iso
    decreases |iso|
  {
    if iso == [] {
    } else if IsDropped(iso[0]) {
      FormatDateShape(iso[1..]);
    } else if iso[0] == '.' && |iso| >= 4 && AllDigits(iso[1..4]) {
      FormatDateShape(iso[4..]);
    } else {
      FormatDateShape(iso[1..]);
    }
  }

  lemma {:induction false} FormatDateKeepsDigits(d: string, rest: string)
    requires AllDigits(d)
    ensures FormatDate(d + rest) == d + FormatDate(rest)
    decreases |d|
  {
    if d == [] {
      assert d + rest == rest;
    } else {
      var s := d + rest;
      assert s[0] == d[0] && IsDigit(d[0]);
      assert s[1..] == d[1..] + rest;
      FormatDateKeepsDigits(d[1..], rest);
      assert FormatDate(s) == [s[0]] + FormatDate(s[1..]);
      assert d == [d[0]] + d[1..];
    }
  }

  /** The year as formatDate leaves it. */
  function CompactYear(y: int): string {
    if y < 0 then Pad(-y, 6) else YearText(y)
  }

  /** The compact form: the ISO text without separators and milliseconds
      (a negative year also loses its sign, a '+' stays). */
  function Compact(t: Timestamp): string {
    CompactYear(t.year)
      + (Pad(t.month, 2) + (Pad(t.day, 2) + ("T" + (Pad(t.hour, 2)
      + (Pad(t.minute, 2) + (Pad(t.second, 2) + "Z"))))))
  }

  lemma {:induction false} PadDigits(n: nat, w: nat)
    ensures AllDigits(Pad(n, w))
  {
    DigitsValueZeroPad(NatToString(n), w);
  }

  lemma {:induction false} FractionDropped(p: string)
    requires |p| == 3 && AllDigits(p)
    ensures FormatDate("." + (p + "Z")) == "Z"
  {
    var tail := "." + (p + "Z");
    assert tail[1..4] == p;
    assert tail[4..] == "Z";
    var z := FormatDate("Z");
    assert z == "Z" by {
      assert "Z"[1..] == [];
      assert FormatDate("Z") == ['Z'] + FormatDate([]);
    }
  }

  lemma {:induction false} DropSeparator(c: char, rest: string)
    requires IsDropped(c)
    ensures FormatDate([c] + rest) == FormatDate(rest)
  {
    assert ([c] + rest)[1..] == rest;
  }

  /** The time half of an ISO text: "HH:mm:ss.sssZ" becomes "HHmmssZ". */
  lemma {:induction false} FormatTimeHalf(h: string, mi: string, se: string, ms: string)
    requires AllDigits(h) && AllDigits(mi) && AllDigits(se)
    requires |ms| == 3 && AllDigits(ms)
    ensures FormatDate(h + (":" + (mi + (":" + (se + ("." + (ms + "Z")))))))
            == h + (mi + (se + "Z"))
  {
    FractionDropped(ms);
    FormatDateKeepsDigits(se, "." + (ms + "Z"));
    DropSeparator(':', se + ("." + (ms + "Z")));
    FormatDateKeepsDigits(mi, ":" + (se + ("." + (ms + "Z"))));
    DropSeparator(':', mi + (":" + (se + ("." + (ms + "Z")))));
    FormatDateKeepsDigits(h, ":" + (mi + (":" + (se + ("." + (ms + "Z"))))));
  }

  /** The date half: "MM-DDT" loses its '-' and keeps the 'T'. */
  lemma {:induction false} FormatDateHalf(mo: string, d: string, rest: string)
    requires AllDigits(mo) && AllDigits(d)
    ensures FormatDate(mo + ("-" + (d + ("T" + rest)))) == mo + (d + ("T" + FormatDate(rest)))
  {
    var tt := "T" + rest;
    assert FormatDate(tt) == "T" + FormatDate(rest) by { assert tt[1..] == rest; }
    FormatDateKeepsDigits(d, tt);
    DropSeparator('-', d + tt);
    FormatDateKeepsDigits(mo, "-" + (d + tt));
  }

  /** A '-'-prefixed run of digits loses the sign; a '+'-prefixed one keeps it. */
  lemma {:induction false} FormatSigned(sign: char, d: string, rest: string)
    requires (sign == '-' || sign == '+') && AllDigits(d)
    ensures FormatDate([sign] + (d + rest))
            == (if sign == '-' then d else [sign] + d) + FormatDate(rest)
  {
    var s := [sign] + (d + rest);
    assert s[1..] == d + rest;
    FormatDateKeepsDigits(d, rest);
  }

  /** The year and the '-' after it: the sign of a negative year goes, a
      '+' stays. */
  lemma {:induction false} FormatYear(y: int, rest: string)
    ensures FormatDate(YearText(y) + ("-" + rest))
            == CompactYear(y) + FormatDate(rest)
  {
    if 0 <= y <= 9999 {
      FormatUnsignedYear(Pad(y, 4), rest);
    } else if y < 0 {
      FormatSignedYear('-', Pad(-y, 6), rest);
    } else {
      FormatSignedYear('+', Pad(y, 6), rest);
    }
  }

  lemma {:induction false} FormatUnsignedYear(d: string, rest: string)
    requires AllDigits(d)
    ensures FormatDate(d + ("-" + rest)) == d + FormatDate(rest)
  {
    DropSeparator('-', rest);
    FormatDateKeepsDigits(d, "-" + rest);
  }

  lemma {:induction false} FormatSignedYear(sign: char, d: string, rest: string)
    requires (sign == '-' || sign == '+') && AllDigits(d)
    ensures FormatDate([sign] + d + ("-" + rest))
            == (if sign == '-' then d else [sign] + d) + FormatDate(rest)
  {
    var tail := "-" + rest;
    var s := [sign] + d + tail;
    assert s == [sign] + (d + tail);
    FormatSigned(sign, d, tail);
    assert FormatDate(s) == (if sign == '-' then d else [sign] + d) + FormatDate(tail);
    DropSeparator('-', rest);
  }

  lemma {:induction false} FormatIsoFields(year: int, mo: string, d: string, h: string, mi: string,
                        se: string, ms: string)
    requires AllDigits(mo) && AllDigits(d) && AllDigits(h) && AllDigits(mi) && AllDigits(se)
    requires |ms| == 3 && AllDigits(ms)
    ensures FormatDate(YearText(year) + ("-" + (mo + ("-" + (d + ("T" + (h + (":" + (mi
              + (":" + (se + ("." + (ms + "Z")))))))))))))
            == CompactYear(year) + (mo + (d + ("T" + (h + (mi + (se + "Z"))))))
  {
    var timeText := h + (":" + (mi + (":" + (se + ("." + (ms + "Z"))))));
    FormatTimeHalf(h, mi, se, ms);
    var mon := mo + ("-" + (d + ("T" + timeText)));
    FormatDateHalf(mo, d, timeText);
    FormatYear(year, mon);
  }

  lemma {:induction false} PadMillis(ms: nat)
    requires ms < 1000
    ensures |Pad(ms, 3)| == 3 && AllDigits(Pad(ms, 3))
  {
    Pow10Values();
    PadReadsBack(ms, 3);
  }

  /** formatDate turns every `toISOString` text into the compact form:
      YYYYMMDDTHHmmssZ for the years 0 to 9999. */
  lemma {:induction false} FormatDateOfIso(t: Timestamp)
    requires t.Valid()
    ensures FormatDate(ToIsoString(t)) == Compact(t)
  {
    PadMillis(t.millis);
    PadDigits(t.month, 2); PadDigits(t.day, 2); PadDigits(t.hour, 2);
    PadDigits(t.minute, 2); PadDigits(t.second, 2);
    assert ToIsoString(t) == YearText(t.year) + ("-" + (Pad(t.month, 2) + ("-" + (Pad(t.day, 2)
      + ("T" + (Pad(t.hour, 2) + (":" + (Pad(t.minute, 2) + (":" + (Pad(t.second, 2)
      + ("." + (Pad(t.millis, 3) + "Z"))))))))))));
    FormatIsoFields(t.year, Pad(t.month, 2), Pad(t.day, 2), Pad(t.hour, 2),
                    Pad(t.minute, 2), Pad(t.second, 2), Pad(t.millis, 3));
  }

  /** The digit field s[i..j], when there is one. */
  predicate DigitField(s: string, i: nat, j: nat) {
    i <= j <= |s| && AllDigits(s[i..j])
  }

  /** How the calendar service reads a compact UTC time (ISO 8601 basic
      format, four-digit year): the fields, with no milliseconds. */
  function ReadCompact(s: string): Option<Timestamp> {
    if && |s| == 16 && s[8] == 'T' && s[15] == 'Z'
       && DigitField(s, 0, 4) && DigitField(s, 4, 6) && DigitField(s, 6, 8)
       && DigitField(s, 9, 11) && DigitField(s, 11, 13) && DigitField(s, 13, 15)
    then Some(Timestamp(DigitsValue(s[..4]), DigitsValue(s[4..6]), DigitsValue(s[6..8]),
                        DigitsValue(s[9..11]), DigitsValue(s[11..13]), DigitsValue(s[13..15]), 0))
    else None
  }

  /** Where each field of a four-digit-year compact form sits. */
  lemma {:induction false} CompactLayout(y: string, mo: string, d: string, h: string, mi: string, se: string)
    requires |y| == 4 && |mo| == 2 && |d| == 2 && |h| == 2 && |mi| == 2 && |se| == 2
    ensures var s := y + (mo + (d + ("T" + (h + (mi + (se + "Z"))))));
            && |s| == 16 && s[8] == 'T' && s[15] == 'Z'
            && s[..4] == y && s[4..6] == mo && s[6..8] == d
            && s[9..11] == h && s[11..13] == mi && s[13..15] == se
  {
    var s := y + (mo + (d + ("T" + (h + (mi + (se + "Z"))))));
    assert s[..4] == y;
    assert s[4..6] == mo by { assert s[4] == mo[0] && s[5] == mo[1]; }
    assert s[6..8] == d by { assert s[6] == d[0] && s[7] == d[1]; }
    assert s[9..11] == h by { assert s[9] == h[0] && s[10] == h[1]; }
    assert s[11..13] == mi by { assert s[11] == mi[0] && s[12] == mi[1]; }
    assert s[13..15] == se by { assert s[13] == se[0] && s[14] == se[1]; }
  }

  /** Digit fields laid out in the compact form read back as their values. */
  lemma {:induction false} ReadFields(y: string, mo: string, d: string, h: string, mi: string, se: string)
    requires |y| == 4 && |mo| == 2 && |d| == 2 && |h| == 2 && |mi| == 2 && |se| == 2
    requires AllDigits(y) && AllDigits(mo) && AllDigits(d)
    requires AllDigits(h) && AllDigits(mi) && AllDigits(se)
    ensures ReadCompact(y + (mo + (d + ("T" + (h + (mi + (se + "Z")))))))
            == Some(Timestamp(DigitsValue(y), DigitsValue(mo), DigitsValue(d),
                              DigitsValue(h), DigitsValue(mi), DigitsValue(se), 0))
  {
    var s := y + (mo + (d + ("T" + (h + (mi + (se + "Z"))))));
    CompactLayout(y, mo, d, h, mi, se);
    assert DigitField(s, 0, 4) && DigitField(s, 4, 6) && DigitField(s, 6, 8);
    assert DigitField(s, 9, 11) && DigitField(s, 11, 13) && DigitField(s, 13, 15);
    var r := Timestamp(DigitsValue(s[..4]), DigitsValue(s[4..6]), DigitsValue(s[6..8]),
                       DigitsValue(s[9..11]), DigitsValue(s[11..13]), DigitsValue(s[13..15]), 0);
    assert ReadCompact(s) == Some(r);
  }

  /** Four-digit-year fields survive the compact form and reading back. */
  lemma {:induction false} ReadCompactOf(y: nat, mo: nat, d: nat, h: nat, mi: nat, se: nat)
    requires y < 10000 && mo < 100 && d < 100 && h < 100 && mi < 100 && se < 100
    ensures ReadCompact(Compact(Timestamp(y, mo, d, h, mi, se, 0))) == Some(Timestamp(y, mo, d, h, mi, se, 0))
  {
    Pow10Values();
    PadReadsBack(y, 4); PadReadsBack(mo, 2); PadReadsBack(d, 2);
    PadReadsBack(h, 2); PadReadsBack(mi, 2); PadReadsBack(se, 2);
    ReadFields(Pad(y, 4), Pad(mo, 2), Pad(d, 2), Pad(h, 2), Pad(mi, 2), Pad(se, 2));
    CompactFourDigitYear(Timestamp(y, mo, d, h, mi, se, 0));
  }

  /** With a year from 0 to 9999 the compact form starts with four digits. */
  lemma {:induction false} CompactFourDigitYear(t: Timestamp)
    requires 0 <= t.year <= 9999
    ensures Compact(t) == Pad(t.year, 4) + (Pad(t.month, 2) + (Pad(t.day, 2) + ("T" + (Pad(t.hour, 2)
                            + (Pad(t.minute, 2) + (Pad(t.second, 2) + "Z"))))))
  {
  }

  /** The compact form keeps every field but the milliseconds: reading it
      back gives the instant truncated to the second. */
  lemma {:induction false} CompactReadsBack(t: Timestamp)
    requires t.Valid() && 0 <= t.year <= 9999
    ensures ReadCompact(Compact(t)) == Some(t.(millis := 0))
  {
    ReadCompactOf(t.year, t.month, t.day, t.hour, t.minute, t.second);
  }

  // ---------------------------------------------------------------------------
  // getGoogleCalendarLink

  /** What the link needs from the browser: the local-time parse that
      `new Date(text)` performs (`None` for an invalid date), the instant
      `new Date()` gives, the UTC fields of an instant, and
      `encodeURIComponent`. */
  datatype Runtime = Runtime(parseLocal: string -> Option<int>, now: int,
                             utc: int -> Timestamp, encode: string -> string)
  {
    /** Every instant has calendar fields in their ranges. */
    ghost predicate Valid() {
      forall instant :: utc(instant).Valid()
    }
  }

  /** The fixed event length: one hour in milliseconds. */
  const HourMs: int := 60 * 60 * 1000

  /** The local date-time text handed to `new Date`, or `None` when the stored
      date does not split into three parts at "/". */
  function LocalStartText(e: EventRecord): Option<string> {
    var parts := Split(e.date, "/");
    if |parts| != 3 then None
    else
      var isoDate := parts[2] + "-" + ZeroPad(parts[0], 2) + "-" + ZeroPad(parts[1], 2);
      Some(isoDate + "T" + GuardedTo24(e.time) + ":00")
  }

  /** The start instant: the parsed text, or "now" when the parse fails. */
  function StartInstant(rt: Runtime, text: string): int {
    match rt.parseLocal(text)
    case Some(ms) => ms
    case None => rt.now
  }

  /** formatDate applied to the Date for an instant. */
  function CompactAt(rt: Runtime, instant: int): string {
    FormatDate(ToIsoString(rt.utc(instant)))
  }

  /** The link's template: the four values spliced into the fixed query. */
  function CalendarUrl(title: string, dates: string, details: string, location: string): string {
    "https://calendar.google.com/calendar/render?action=TEMPLATE&text=" + (title + ("&dates="
      + (dates + ("&details=" + (details + ("&location=" + (location + "&sf=true&output=xml")))))))
  }

  /** The link for a start instant: the compact start and the compact end
      one hour later, with title, description and location encoded. */
  function LinkAt(e: EventRecord, rt: Runtime, startDateTime: int): string {
    var endDateTime := startDateTime + HourMs;
    var formattedStart := CompactAt(rt, startDateTime);
    var formattedEnd := CompactAt(rt, endDateTime);
    CalendarUrl(rt.encode(e.title), formattedStart + "/" + formattedEnd,
                rt.encode(e.description), rt.encode(e.location))
  }

  /** `getGoogleCalendarLink`: "#" when the date does not split into three
      parts; otherwise the link for the parsed start, or for "now" when the
      parse fails. */
  function GoogleCalendarLink(e: EventRecord, rt: Runtime): string {
    match LocalStartText(e)
    case None => "#"
    case Some(text) => LinkAt(e, rt, StartInstant(rt, text))
  }

  /** A stored event's date and 12-hour time become the local ISO text the
      Date parser is given (the first scenario of the page's link). */
  lemma {:induction false} LocalStartTextOfStoredEvent(e: EventRecord, m: string, d: string, y: string,
                                    h: string, mm: string, w: string, mer: string)
    requires e.date == m + "/" + d + "/" + y
    requires '/' !in m && '/' !in d && '/' !in y
    requires Matches12(e.time, h, mm, w, mer)
    ensures var hours := DialTo24(DigitsValue(h), mer[0] in "pP");
            LocalStartText(e) == Some(y + "-" + ZeroPad(m, 2) + "-" + ZeroPad(d, 2) + "T"
                                      + ZeroPad(NatToString(hours), 2) + ":" + mm + ":00")
  {
    assert e.date == m + ['/'] + d + ['/'] + y;
    SplitThree(m, d, y, '/');
    assert Split(e.date, "/") == [m, d, y];
    GuardIsRedundant(e.time);
    To24HourOnMatch(e.time, h, mm, w, mer);
    var isoDate := y + "-" + ZeroPad(m, 2) + "-" + ZeroPad(d, 2);
    var z := ZeroPad(NatToString(DialTo24(DigitsValue(h), mer[0] in "pP")), 2);
    assert LocalStartText(e) == Some(isoDate + "T" + (z + ":" + mm) + ":00");
    ConcatAssoc(isoDate + "T", z + ":", mm);
    ConcatAssoc(isoDate + "T", z, ":");
  }

  /** An event saved from the form ("y-mm-dd", "HH:MM") is handed to the
      Date parser as exactly the date and time that were entered. */
  lemma {:induction false} SavedStartText(f: EventRecord, y: string, m: string, d: string,
                                          hh: string, mm: string)
    requires f.date == y + "-" + m + "-" + d
    requires '-' !in y && '-' !in m && '-' !in d
    requires '/' !in y && '/' !in m && '/' !in d
    requires |m| == 2 && |d| == 2
    requires f.time == hh + ":" + mm
    requires |hh| == 2 && AllDigits(hh) && DigitsValue(hh) <= 23
    requires |mm| == 2 && AllDigits(mm)
    ensures LocalStartText(FormatFormData(f)) == Some(f.date + "T" + f.time + ":00")
  {
    var e := FormatFormData(f);
    DateRoundTrip(y, m, d);
    assert e.date == m + ['/'] + d + ['/'] + y;
    SplitThree(m, d, y, '/');
    GuardIsRedundant(e.time);
    RoundTrip24(hh, mm);
    assert GuardedTo24(e.time) == f.time;
    assert ZeroPad(m, 2) == m && ZeroPad(d, 2) == d;
    assert LocalStartText(e) == Some(f.date + "T" + f.time + ":00");
  }

  /** The example of a stored event at "10/14/2024", "5:00 PM". */
  lemma {:induction false} LocalStartTextExample(e: EventRecord)
    requires e.date == "10/14/2024" && e.time == "5:00 PM"
    ensures LocalStartText(e) == Some("2024-10-14T17:00:00")
  {
    ExampleDate(e.date);
    ExampleClock(e.time);
    LocalStartTextOfStoredEvent(e, "10", "14", "2024", "5", "00", " ", "PM");
    ExampleHour();
    ExamplePads();
    ExampleText();
  }

  lemma {:induction false} ExampleDate(date: string)
    requires date == "10/14/2024"
    ensures date == "10" + "/" + "14" + "/" + "2024"
    ensures '/' !in "10" && '/' !in "14" && '/' !in "2024"
  {
  }

  lemma {:induction false} ExampleClock(time: string)
    requires time == "5:00 PM"
    ensures Matches12(time, "5", "00", " ", "PM")
  {
    assert time == "5" + ":" + "00" + " " + "PM";
    assert AllDigits("5") && AllDigits("00") && AllWhitespace(" ") && IsMeridiem("PM");
  }

  lemma {:induction false} ExampleHour()
    ensures ZeroPad(NatToString(DialTo24(DigitsValue("5"), "PM"[0] in "pP")), 2) == "17"
  {
    assert DigitsValue("5") == 5 by { assert "5"[..0] == []; }
    assert DialTo24(5, true) == 17;
    NatToStringTwoDigits(1, 7);
    assert NatToString(17) == "17";
  }

  lemma {:induction false} ExamplePads()
    ensures ZeroPad("10", 2) == "10" && ZeroPad("14", 2) == "14"
  {
  }

  lemma {:induction false} ExampleText()
    ensures "2024" + "-" + "10" + "-" + "14" + "T" + "17" + ":" + "00" + ":00"
            == "2024-10-14T17:00:00"
  {
  }

  // How a server reads the query of a URL: the text after the first '?',
  // split at '&', each parameter cut at its first '='.

  function KeyValue(item: string): (string, string) {
    match IndexOf(item, "=")
    case None => (item, "")
    case Some(i) => (item[..i], item[i + 1..])
  }

  function Params(items: seq<string>): (r: seq<(string, string)>)
    ensures |r| == |items|
    ensures forall k :: 0 <= k < |items| ==> r[k] == KeyValue(items[k])
  {
    if items == [] then [] else [KeyValue(items[0])] + Params(items[1..])
  }

  function QueryParams(url: string): seq<(string, string)> {
    match IndexOf(url, "?")
    case None => []
    case Some(q) => Params(Split(url[q + 1..], "&"))
  }

  lemma {:induction false} KeyValueOf(key: string, value: string)
    requires '=' !in key
    ensures KeyValue(key + "=" + value) == (key, value)
  {
    FirstSeparator(key, '=', value);
    var item := key + "=" + value;
    assert item[..|key|] == key;
    assert item[|key| + 1..] == value;
  }

  /** The parameters of the link, in order. */
  function LinkItems(title: string, dates: string, details: string, location: string): seq<string> {
    ["action=TEMPLATE", "text=" + title, "dates=" + dates, "details=" + details,
     "location=" + location, "sf=true", "output=xml"]
  }

  lemma {:induction false} Param(key: string, v: string, next: string, rest: string)
    ensures key + v + "&" + (next + rest) == key + (v + (("&" + next) + rest))
  {
    ConcatAssoc(key, v, "&" + (next + rest));
    ConcatAssoc(key + v, "&", next + rest);
    ConcatAssoc("&", next, rest);
  }

  lemma {:induction false} LocationTail(l: string)
    ensures Join(["location=" + l, "sf=true", "output=xml"], "&")
            == "location=" + (l + "&sf=true&output=xml")
  {
    JoinCons("sf=true", ["output=xml"], "&");
    assert Join(["sf=true", "output=xml"], "&") == "sf=true&output=xml";
    JoinCons("location=" + l, ["sf=true", "output=xml"], "&");
    ConcatAssoc("location=" + l, "&", "sf=true&output=xml");
    ConcatAssoc("location=", l, "&sf=true&output=xml");
  }

  lemma {:induction false} DetailsTail(de: string, l: string)
    ensures Join(["details=" + de, "location=" + l, "sf=true", "output=xml"], "&")
            == "details=" + (de + ("&location=" + (l + "&sf=true&output=xml")))
  {
    LocationTail(l);
    JoinCons("details=" + de, ["location=" + l, "sf=true", "output=xml"], "&");
    Param("details=", de, "location=", l + "&sf=true&output=xml");
  }

  lemma {:induction false} DatesTail(d: string, de: string, l: string)
    ensures Join(["dates=" + d, "details=" + de, "location=" + l, "sf=true", "output=xml"], "&")
            == "dates=" + (d + ("&details=" + (de + ("&location=" + (l + "&sf=true&output=xml")))))
  {
    DetailsTail(de, l);
    JoinCons("dates=" + d, ["details=" + de, "location=" + l, "sf=true", "output=xml"], "&");
    Param("dates=", d, "details=", de + ("&location=" + (l + "&sf=true&output=xml")));
  }

  lemma {:induction false} TextTail(t: string, d: string, de: string, l: string)
    ensures Join(LinkItems(t, d, de, l)[1..], "&")
            == "text=" + (t + ("&dates=" + (d + ("&details=" + (de + ("&location="
               + (l + "&sf=true&output=xml")))))))
  {
    DatesTail(d, de, l);
    assert LinkItems(t, d, de, l)[1..]
           == ["text=" + t] + ["dates=" + d, "details=" + de, "location=" + l, "sf=true", "output=xml"];
    JoinCons("text=" + t, ["dates=" + d, "details=" + de, "location=" + l, "sf=true", "output=xml"], "&");
    Param("text=", t, "dates=", d + ("&details=" + (de + ("&location=" + (l + "&sf=true&output=xml")))));
  }

  /** The parameters joined by '&' spell out the template's query. */
  lemma {:induction false} LinkItemsJoin(t: string, d: string, de: string, l: string)
    ensures Join(LinkItems(t, d, de, l), "&")
            == "action=TEMPLATE&text=" + (t + ("&dates=" + (d + ("&details=" + (de + ("&location="
               + (l + "&sf=true&output=xml")))))))
  {
    TextTail(t, d, de, l);
    var x := t + ("&dates=" + (d + ("&details=" + (de + ("&location=" + (l + "&sf=true&output=xml"))))));
    assert LinkItems(t, d, de, l) == ["action=TEMPLATE"] + LinkItems(t, d, de, l)[1..];
    JoinCons("action=TEMPLATE", LinkItems(t, d, de, l)[1..], "&");
    ConcatAssoc("action=TEMPLATE" + "&", "text=", x);
  }

  /** The template is the page address, '?', and the parameters joined by '&'. */
  lemma {:induction false} CalendarUrlJoin(t: string, d: string, de: string, l: string)
    ensures CalendarUrl(t, d, de, l)
            == "https://calendar.google.com/calendar/render" + "?" + Join(LinkItems(t, d, de, l), "&")
  {
    LinkItemsJoin(t, d, de, l);
    var x := t + ("&dates=" + (d + ("&details=" + (de + ("&location=" + (l + "&sf=true&output=xml"))))));
    PageQueryPrefix();
    ConcatAssoc("https://calendar.google.com/calendar/render" + "?", "action=TEMPLATE&text=", x);
  }

  lemma {:induction false} PageQueryPrefix()
    ensures "https://calendar.google.com/calendar/render" + "?" + "action=TEMPLATE&text="
            == "https://calendar.google.com/calendar/render?action=TEMPLATE&text="
  {
  }

  /** The query of a URL whose address part has no '?'. */
  lemma {:induction false} QueryOf(page: string, query: string)
    requires '?' !in page
    ensures QueryParams(page + "?" + query) == Params(Split(query, "&"))
  {
    FirstSeparator(page, '?', query);
    assert (page + "?" + query)[|page| + 1..] == query;
  }

  lemma {:induction false} LinkItemsSplit(t: string, d: string, de: string, l: string)
    requires '&' !in t && '&' !in d && '&' !in de && '&' !in l
    ensures Split(Join(LinkItems(t, d, de, l), "&"), "&") == LinkItems(t, d, de, l)
  {
    var items := LinkItems(t, d, de, l);
    forall k | 0 <= k < |items| ensures '&' !in items[k] {
    }
    SplitJoinChar(items, '&');
  }

  /** The parameter "key=value" reads as the pair (key, value). */
  lemma {:induction false} ParamOf(keyEq: string, key: string, value: string)
    requires keyEq == key + "=" && '=' !in key
    ensures KeyValue(keyEq + value) == (key, value)
  {
    KeyValueOf(key, value);
  }

  lemma {:induction false} ParamsCons(a: string, rest: seq<string>)
    ensures Params([a] + rest) == [KeyValue(a)] + Params(rest)
  {
    assert ([a] + rest)[1..] == rest;
  }

  lemma {:induction false} FixedParams()
    ensures Params(["sf=true", "output=xml"]) == [("sf", "true"), ("output", "xml")]
  {
    ParamOf("sf=", "sf", "true");
    assert "sf=" + "true" == "sf=true";
    ParamOf("output=", "output", "xml");
    assert "output=" + "xml" == "output=xml";
    ParamsCons("sf=true", ["output=xml"]);
    ParamsCons("output=xml", []);
    assert Params([]) == [];
    assert ["output=xml"] == ["output=xml"] + [];
  }

  lemma {:induction false} LocationParams(l: string)
    ensures Params(["location=" + l, "sf=true", "output=xml"])
            == [("location", l), ("sf", "true"), ("output", "xml")]
  {
    FixedParams();
    ParamOf("location=", "location", l);
    ParamsCons("location=" + l, ["sf=true", "output=xml"]);
  }

  lemma {:induction false} DetailsParams(de: string, l: string)
    ensures Params(["details=" + de, "location=" + l, "sf=true", "output=xml"])
            == [("details", de), ("location", l), ("sf", "true"), ("output", "xml")]
  {
    LocationParams(l);
    ParamOf("details=", "details", de);
    ParamsCons("details=" + de, ["location=" + l, "sf=true", "output=xml"]);
  }

  lemma {:induction false} DatesParams(d: string, de: string, l: string)
    ensures Params(["dates=" + d, "details=" + de, "location=" + l, "sf=true", "output=xml"])
            == [("dates", d), ("details", de), ("location", l), ("sf", "true"), ("output", "xml")]
  {
    DetailsParams(de, l);
    ParamOf("dates=", "dates", d);
    ParamsCons("dates=" + d, ["details=" + de, "location=" + l, "sf=true", "output=xml"]);
  }

  lemma {:induction false} TextParams(t: string, d: string, de: string, l: string)
    ensures Params(LinkItems(t, d, de, l)[1..])
            == [("text", t), ("dates", d), ("details", de), ("location", l),
                ("sf", "true"), ("output", "xml")]
  {
    DatesParams(d, de, l);
    ParamOf("text=", "text", t);
    assert LinkItems(t, d, de, l)[1..]
           == ["text=" + t] + ["dates=" + d, "details=" + de, "location=" + l, "sf=true", "output=xml"];
    ParamsCons("text=" + t, ["dates=" + d, "details=" + de, "location=" + l, "sf=true", "output=xml"]);
  }

  /** The seven parameters of a calendar link, as a server reads them. */
  function LinkFields(t: string, d: string, de: string, l: string): seq<(string, string)> {
    [("action", "TEMPLATE"), ("text", t), ("dates", d), ("details", de),
     ("location", l), ("sf", "true"), ("output", "xml")]
  }

  lemma {:induction false} ActionParam()
    ensures KeyValue("action=TEMPLATE") == ("action", "TEMPLATE")
  {
    ParamOf("action=", "action", "TEMPLATE");
    assert "action=" + "TEMPLATE" == "action=TEMPLATE";
  }

  lemma {:induction false} LinkItemsParams(t: string, d: string, de: string, l: string)
    ensures Params(LinkItems(t, d, de, l))
            == LinkFields(t, d, de, l)
  {
    TextParams(t, d, de, l);
    ActionParam();
    assert LinkItems(t, d, de, l) == ["action=TEMPLATE"] + LinkItems(t, d, de, l)[1..];
    ParamsCons("action=TEMPLATE", LinkItems(t, d, de, l)[1..]);
  }

  /** A server reading the template's query gets the seven parameters back,
      as long as none of the four values contains '&'. */
  lemma {:induction false} CalendarUrlQuery(t: string, d: string, de: string, l: string)
    requires '&' !in t && '&' !in d && '&' !in de && '&' !in l
    ensures QueryParams(CalendarUrl(t, d, de, l))
            == LinkFields(t, d, de, l)
  {
    CalendarUrlJoin(t, d, de, l);
    QueryOf("https://calendar.google.com/calendar/render", Join(LinkItems(t, d, de, l), "&"));
    LinkItemsSplit(t, d, de, l);
    LinkItemsParams(t, d, de, l);
  }

  lemma {:induction false} NoCharInDigits(p: string, c: char)
    requires AllDigits(p) && !IsDigit(c)
    ensures c !in p
  {
  }

  lemma {:induction false} NoAmpInPad(n: nat, w: nat)
    ensures '&' !in Pad(n, w)
  {
    PadDigits(n, w);
    NoCharInDigits(Pad(n, w), '&');
  }

  lemma {:induction false} NoAmpInYear(y: int)
    ensures '&' !in YearText(y)
  {
    if 0 <= y <= 9999 {
      NoAmpInPad(y, 4);
    } else if y < 0 {
      NoAmpInPad(-y, 6);
    } else {
      NoAmpInPad(y, 6);
    }
  }

  lemma {:induction false} NoAmpInIsoFields(y: string, mo: string, d: string, h: string, mi: string,
                         se: string, ms: string)
    requires '&' !in y && '&' !in mo && '&' !in d && '&' !in h
    requires '&' !in mi && '&' !in se && '&' !in ms
    ensures '&' !in y + ("-" + (mo + ("-" + (d + ("T" + (h + (":" + (mi
              + (":" + (se + ("." + (ms + "Z"))))))))))))
  {
  }

  /** A `toISOString` text has no '&'. */
  lemma {:induction false} NoAmpInIso(t: Timestamp)
    ensures '&' !in ToIsoString(t)
  {
    NoAmpInYear(t.year);
    NoAmpInPad(t.month, 2); NoAmpInPad(t.day, 2); NoAmpInPad(t.hour, 2);
    NoAmpInPad(t.minute, 2); NoAmpInPad(t.second, 2); NoAmpInPad(t.millis, 3);
    NoAmpInIsoFields(YearText(t.year), Pad(t.month, 2), Pad(t.day, 2), Pad(t.hour, 2),
                     Pad(t.minute, 2), Pad(t.second, 2), Pad(t.millis, 3));
  }

  /** Neither has formatDate's result for any instant. */
  lemma {:induction false} NoAmpInCompactAt(t: Timestamp)
    ensures '&' !in FormatDate(ToIsoString(t))
  {
    NoAmpInIso(t);
    FormatDateShape(ToIsoString(t));
  }

  /** The calendar service reads back from the link for any start exactly
      the encoded title, the start/end pair, the encoded description and the
      encoded location, as long as the encoder never emits '&'
      (percent-encoding, as in section 2.1 of RFC 3986, escapes it). */
  lemma {:induction false} LinkAtQuery(e: EventRecord, rt: Runtime, start: int)
    requires '&' !in rt.encode(e.title) && '&' !in rt.encode(e.description)
    requires '&' !in rt.encode(e.location)
    ensures QueryParams(LinkAt(e, rt, start))
            == LinkFields(rt.encode(e.title), CompactAt(rt, start) + "/" + CompactAt(rt, start + HourMs),
                          rt.encode(e.description), rt.encode(e.location))
  {
    NoAmpInCompactAt(rt.utc(start));
    NoAmpInCompactAt(rt.utc(start + HourMs));
    var dates := CompactAt(rt, start) + "/" + CompactAt(rt, start + HourMs);
    assert '&' !in dates;
    CalendarUrlQuery(rt.encode(e.title), dates, rt.encode(e.description), rt.encode(e.location));
  }

  /** The start falls back to "now" exactly when the parse fails. */
  lemma {:induction false} StartFallback(rt: Runtime, text: string)
    ensures rt.parseLocal(text).None? ==> StartInstant(rt, text) == rt.now
    ensures rt.parseLocal(text).Some? ==> StartInstant(rt, text) == rt.parseLocal(text).value
  {
  }

  /** For valid UTC fields the `dates` value is the compact start, '/', and
      the compact end one hour later. */
  lemma {:induction false} DatesValid(rt: Runtime, start: int)
    requires rt.Valid()
    ensures CompactAt(rt, start) + "/" + CompactAt(rt, start + HourMs)
            == Compact(rt.utc(start)) + "/" + Compact(rt.utc(start + HourMs))
  {
    CompactAtValid(rt, start);
    CompactAtValid(rt, start + HourMs);
  }

  lemma {:induction false} CompactAtValid(rt: Runtime, instant: int)
    requires rt.Valid()
    ensures CompactAt(rt, instant) == Compact(rt.utc(instant))
  {
    FormatDateOfIso(rt.utc(instant));
  }

  /** The parameters of the link at a start, when the UTC fields are valid. */
  lemma {:induction false} LinkQueryValid(e: EventRecord, rt: Runtime, start: int, link: string)
    requires link == LinkAt(e, rt, start) && rt.Valid()
    requires '&' !in rt.encode(e.title) && '&' !in rt.encode(e.description)
    requires '&' !in rt.encode(e.location)
    ensures QueryParams(link)
            == LinkFields(rt.encode(e.title), Compact(rt.utc(start)) + "/" + Compact(rt.utc(start + HourMs)),
                          rt.encode(e.description), rt.encode(e.location))
  {
    LinkAtQuery(e, rt, start);
    DatesValid(rt, start);
  }

  lemma {:induction false} CalendarUrlLong(t: string, d: string, de: string, l: string)
    ensures |CalendarUrl(t, d, de, l)| > 1
  {
  }

  /** The link is "#" exactly when the date does not split into three parts. */
  lemma {:induction false} CalendarLinkFallback(e: EventRecord, rt: Runtime)
    ensures GoogleCalendarLink(e, rt) == "#" <==> LocalStartText(e).None?
  {
    match LocalStartText(e)
    case None =>
    case Some(text) =>
      var start := StartInstant(rt, text);
      CalendarUrlLong(rt.encode(e.title), CompactAt(rt, start) + "/" + CompactAt(rt, start + HourMs),
                      rt.encode(e.description), rt.encode(e.location));
  }

  /** A date that splits into three parts gives the link at its start. */
  lemma {:induction false} LinkOfText(e: EventRecord, rt: Runtime, text: string)
    requires LocalStartText(e) == Some(text)
    ensures GoogleCalendarLink(e, rt) == LinkAt(e, rt, StartInstant(rt, text))
  {
  }

  lemma {:induction false} LinkQueryAtStart(e: EventRecord, rt: Runtime, text: string)
    requires GoogleCalendarLink(e, rt) == LinkAt(e, rt, StartInstant(rt, text)) && rt.Valid()
    requires '&' !in rt.encode(e.title) && '&' !in rt.encode(e.description)
    requires '&' !in rt.encode(e.location)
    ensures QueryParams(GoogleCalendarLink(e, rt))
            == LinkFields(rt.encode(e.title), Compact(rt.utc(StartInstant(rt, text))) + "/"
                            + Compact(rt.utc(StartInstant(rt, text) + HourMs)),
                          rt.encode(e.description), rt.encode(e.location))
  {
    LinkQueryValid(e, rt, StartInstant(rt, text), GoogleCalendarLink(e, rt));
  }

  lemma {:induction false} LinkQueryParsed(e: EventRecord, rt: Runtime, text: string, ms: int)
    requires GoogleCalendarLink(e, rt) == LinkAt(e, rt, StartInstant(rt, text)) && rt.Valid()
    requires rt.parseLocal(text) == Some(ms)
    requires '&' !in rt.encode(e.title) && '&' !in rt.encode(e.description)
    requires '&' !in rt.encode(e.location)
    ensures QueryParams(GoogleCalendarLink(e, rt))
            == LinkFields(rt.encode(e.title), Compact(rt.utc(ms)) + "/" + Compact(rt.utc(ms + HourMs)),
                          rt.encode(e.description), rt.encode(e.location))
  {
    StartFallback(rt, text);
    LinkQueryValid(e, rt, ms, GoogleCalendarLink(e, rt));
  }

  lemma {:induction false} LinkQueryNow(e: EventRecord, rt: Runtime, text: string)
    requires GoogleCalendarLink(e, rt) == LinkAt(e, rt, StartInstant(rt, text)) && rt.Valid()
    requires rt.parseLocal(text).None?
    requires '&' !in rt.encode(e.title) && '&' !in rt.encode(e.description)
    requires '&' !in rt.encode(e.location)
    ensures QueryParams(GoogleCalendarLink(e, rt))
            == LinkFields(rt.encode(e.title), Compact(rt.utc(rt.now)) + "/" + Compact(rt.utc(rt.now + HourMs)),
                          rt.encode(e.description), rt.encode(e.location))
  {
    StartFallback(rt, text);
    LinkQueryValid(e, rt, rt.now, GoogleCalendarLink(e, rt));
  }

  /** The address of Google Calendar's event template page, with its '?'. */
  const CalendarAddress := "https://calendar.google.com/calendar/render?"

  lemma {:induction false} TemplateHead()
    ensures "https://calendar.google.com/calendar/render?action=TEMPLATE&text="
            == CalendarAddress + "action=TEMPLATE&text="
  {
  }

  /** Every filled-in template opens Google Calendar's template page. */
  lemma {:induction false} CalendarUrlAddress(t: string, d: string, de: string, l: string)
    ensures StartsWith(CalendarUrl(t, d, de, l), CalendarAddress)
  {
    var x := t + ("&dates=" + (d + ("&details=" + (de + ("&location=" + (l + "&sf=true&output=xml"))))));
    TemplateHead();
    ConcatAssoc(CalendarAddress, "action=TEMPLATE&text=", x);
    var url := CalendarAddress + ("action=TEMPLATE&text=" + x);
    assert url[..|CalendarAddress|] == CalendarAddress;
  }

  lemma {:induction false} LinkAddressAtStart(e: EventRecord, rt: Runtime, text: string)
    requires GoogleCalendarLink(e, rt) == LinkAt(e, rt, StartInstant(rt, text))
    ensures StartsWith(GoogleCalendarLink(e, rt), CalendarAddress)
  {
    var start := StartInstant(rt, text);
    CalendarUrlAddress(rt.encode(e.title), CompactAt(rt, start) + "/" + CompactAt(rt, start + HourMs),
                       rt.encode(e.description), rt.encode(e.location));
  }

  /** The whole link, for an event whose date splits into three parts: it
      opens Google Calendar's template page, and a server reads back the
      seven parameters, the dates being the compact UTC forms of the start
      and of one hour later. */
  lemma {:induction false} CalendarLinkQuery(e: EventRecord, rt: Runtime, text: string)
    requires LocalStartText(e) == Some(text) && rt.Valid()
    requires '&' !in rt.encode(e.title) && '&' !in rt.encode(e.description)
    requires '&' !in rt.encode(e.location)
    ensures StartsWith(GoogleCalendarLink(e, rt), CalendarAddress)
    ensures QueryParams(GoogleCalendarLink(e, rt))
            == LinkFields(rt.encode(e.title), Compact(rt.utc(StartInstant(rt, text))) + "/"
                            + Compact(rt.utc(StartInstant(rt, text) + HourMs)),
                          rt.encode(e.description), rt.encode(e.location))
  {
    LinkOfText(e, rt, text);
    LinkAddressAtStart(e, rt, text);
    LinkQueryAtStart(e, rt, text);
  }

  /** When the Date parser accepts the local text, the event is the hour
      starting at the parsed instant. */
  lemma {:induction false} CalendarLinkAtParsed(e: EventRecord, rt: Runtime, text: string, ms: int)
    requires LocalStartText(e) == Some(text) && rt.Valid() && rt.parseLocal(text) == Some(ms)
    requires '&' !in rt.encode(e.title) && '&' !in rt.encode(e.description)
    requires '&' !in rt.encode(e.location)
    ensures QueryParams(GoogleCalendarLink(e, rt))
            == LinkFields(rt.encode(e.title), Compact(rt.utc(ms)) + "/" + Compact(rt.utc(ms + HourMs)),
                          rt.encode(e.description), rt.encode(e.location))
  {
    LinkOfText(e, rt, text);
    LinkQueryParsed(e, rt, text, ms);
  }

  /** When the Date parser rejects the local text, the event is still one
      hour long, starting at "now". */
  lemma {:induction false} CalendarLinkAtNow(e: EventRecord, rt: Runtime, text: string)
    requires LocalStartText(e) == Some(text) && rt.Valid() && rt.parseLocal(text).None?
    requires '&' !in rt.encode(e.title) && '&' !in rt.encode(e.description)
    requires '&' !in rt.encode(e.location)
    ensures QueryParams(GoogleCalendarLink(e, rt))
            == LinkFields(rt.encode(e.title), Compact(rt.utc(rt.now)) + "/" + Compact(rt.utc(rt.now + HourMs)),
                          rt.encode(e.description), rt.encode(e.location))
  {
    LinkOfText(e, rt, text);
    LinkQueryNow(e, rt, text);
  }

  // ---------------------------------------------------------------------------
  // getFileNameFromUrl

  const PublicMarker := "/public/"
  const EventBucketPrefix := "event-images/"

  /** The storage path of an event image: the segment after the first
      "/public/" (up to the next one), without a leading "event-images/";
      `None` (null) for an empty URL or one without "/public/". */
  function EventFileName(url: string): (r: Option<string>)
    ensures r.None? <==> url == "" || !Contains(url, PublicMarker)
    ensures r.Some? ==>
              || SegmentAfterFirst(url, PublicMarker, EventBucketPrefix + r.value)
              || (SegmentAfterFirst(url, PublicMarker, r.value)
                  && !StartsWith(r.value, EventBucketPrefix))
  {
    SplitSecond(url, PublicMarker);
    if url == "" then None
    else
      var parts := Split(url, PublicMarker);
      if |parts| < 2 then None
      else
        var path := parts[1];
        if StartsWith(path, EventBucketPrefix) then
          assert path == EventBucketPrefix + path[|EventBucketPrefix|..];
          Some(path[|EventBucketPrefix|..])
        else Some(path)
  }

  /** The public URL the storage service gives for an uploaded event image
      maps back to the uploaded file's name. */
  lemma {:induction false} EventFileNameOfPublicUrl(base: string, name: string)
    requires IndexOf(base + PublicMarker, PublicMarker) == Some(|base|)
    requires !Contains(EventBucketPrefix + name, PublicMarker)
    ensures EventFileName(base + PublicMarker + EventBucketPrefix + name) == Some(name)
  {
    var url := base + PublicMarker + (EventBucketPrefix + name);
    assert url == base + PublicMarker + EventBucketPrefix + name;
    IndexOfAppend(base + PublicMarker, EventBucketPrefix + name, PublicMarker);
    var rest := url[|base| + |PublicMarker|..];
    assert rest == EventBucketPrefix + name;
    SplitSecond(url, PublicMarker);
    var path := Split(url, PublicMarker)[1];
    assert path == rest;
    assert path[|EventBucketPrefix|..] == name;
  }
}
