/**
 * The public events page carries its own copies of `convertTo24Hour` and
 * `getGoogleCalendarLink`, whose text repeats the admin page's verbatim.
 * The model shares the admin page's matcher and link builder, writes out
 * this page's own steps around them, and proves that both pages agree on
 * every input, so that both link an event to the same calendar entry.
 */
module PublicEvents {
  import opened JsText
  import opened JsDate
  import AdminEvents

  /** The public `convertTo24Hour`: on a match of the 12-hour pattern, the
      hour is parsed, 12 is added for PM unless it is 12, 12 AM becomes 0,
      and the hour is padded to two digits; any other text is returned. */
  function ConvertTo24Hour(timeStr: string): string {
    match AdminEvents.Match12Hour(timeStr)
    case None => timeStr
    case Some(c) =>
      var hours := DigitsValue(c.hours);
      var modifier := ToUpper(c.modifier);
      var afterPm := if modifier == "PM" && hours != 12 then hours + 12 else hours;
      var afterAm := if modifier == "AM" && afterPm == 12 then 0 else afterPm;
      ZeroPad(NatToString(afterAm), 2) + ":" + c.minutes
  }

  /** Both pages convert every text alike. */
  lemma {:induction false} ConvertTo24HourAgrees(timeStr: string)
    ensures ConvertTo24Hour(timeStr) == AdminEvents.ConvertTo24Hour(timeStr)
  {
  }

  /** The public page reads back every time the admin page stores: a
      24-hour "HH:MM" (HH from 00 to 23) saved as 12-hour text converts to
      the same "HH:MM". */
  lemma {:induction false} ReadsSavedTime(hh: string, mm: string)
    requires |hh| == 2 && AllDigits(hh) && DigitsValue(hh) <= 23
    requires |mm| == 2 && AllDigits(mm)
    ensures ConvertTo24Hour(AdminEvents.ConvertMilitaryTo12(hh + ":" + mm)) == hh + ":" + mm
  {
    ConvertTo24HourAgrees(AdminEvents.ConvertMilitaryTo12(hh + ":" + mm));
    AdminEvents.RoundTrip24(hh, mm);
  }

  /** The public `getGoogleCalendarLink`: "#" for a date that does not split
      into three parts at "/"; otherwise the Date text is built from the
      parts and the time (converted when it mentions AM or PM), and the link
      is the one for the instant it parses to, or for "now". The end one hour
      later, `formatDate` and the URL template are the admin page's. */
  function GoogleCalendarLink(event: AdminEvents.EventRecord, rt: AdminEvents.Runtime): string {
    if |Split(event.date, "/")| != 3 then "#"
    else AdminEvents.LinkAt(event, rt, AdminEvents.StartInstant(rt, DateTimeStr(event)))
  }

  /** The text the public page hands to the Date parser: the stored
      "m/d/y" date as "y-mm-dd", then "T", the 24-hour time and ":00". */
  function DateTimeStr(event: AdminEvents.EventRecord): string
    requires |Split(event.date, "/")| == 3
  {
    var dateParts := Split(event.date, "/");
    var month, day, year := dateParts[0], dateParts[1], dateParts[2];
    var isoDate := year + "-" + ZeroPad(month, 2) + "-" + ZeroPad(day, 2);
    var timeString := if AdminEvents.MentionsMeridiem(event.time)
                      then ConvertTo24Hour(event.time) else event.time;
    isoDate + "T" + timeString + ":00"
  }

  /** The Date text of the public page is the admin page's. */
  lemma {:induction false} DateTimeTextAgrees(event: AdminEvents.EventRecord)
    requires |Split(event.date, "/")| == 3
    ensures AdminEvents.LocalStartText(event) == Some(DateTimeStr(event))
  {
    ConvertTo24HourAgrees(event.time);
  }

  /** Both pages build the same link for every event and every runtime: "#"
      for the same dates, and otherwise the link at the same start. */
  lemma {:induction false} GoogleCalendarLinkAgrees(event: AdminEvents.EventRecord, rt: AdminEvents.Runtime)
    ensures GoogleCalendarLink(event, rt) == AdminEvents.GoogleCalendarLink(event, rt)
  {
    if |Split(event.date, "/")| == 3 {
      DateTimeTextAgrees(event);
      AdminEvents.LinkOfText(event, rt, DateTimeStr(event));
    }
  }

  /** An event saved from the admin form at "y-mm-dd" and "HH:MM" is linked
      on the public page as an hour starting at the instant the Date parser
      gives for exactly that local date and time. */
  lemma {:induction false} PublishedEventLink(f: AdminEvents.EventRecord, rt: AdminEvents.Runtime,
                                              y: string, m: string, d: string, hh: string, mm: string)
    requires f.date == y + "-" + m + "-" + d
    requires '-' !in y && '-' !in m && '-' !in d
    requires '/' !in y && '/' !in m && '/' !in d
    requires |m| == 2 && |d| == 2
    requires f.time == hh + ":" + mm
    requires |hh| == 2 && AllDigits(hh) && DigitsValue(hh) <= 23
    requires |mm| == 2 && AllDigits(mm)
    ensures var saved := AdminEvents.FormatFormData(f);
            GoogleCalendarLink(saved, rt)
            == AdminEvents.LinkAt(saved, rt, AdminEvents.StartInstant(rt, f.date + "T" + f.time + ":00"))
  {
    var saved := AdminEvents.FormatFormData(f);
    AdminEvents.SavedStartText(f, y, m, d, hh, mm);
    AdminEvents.LinkOfText(saved, rt, f.date + "T" + f.time + ":00");
    GoogleCalendarLinkAgrees(saved, rt);
  }
}
