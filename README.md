# XR Engineering club site — verified model of the admin helpers

This project models, in Dafny, the logic the club's website runs in the
browser when officers manage events, projects and their own profile, and
when visitors open an event's "add to Google Calendar" link:

- **Events** (`src/app/admin/events/page.js`). The form keeps dates as
  `yyyy-mm-dd` and times as 24-hour `HH:MM`, but the table stores
  `mm/dd/yyyy` and 12-hour `h:MMAM`/`h:MMPM`. The model covers:
  - the conversions between the two formats (`convertMilitaryTo12`,
    `convertTo24Hour`, `convertDateForInput`, `formatFormData` and the
    conversion in `handleEdit`);
  - the calendar link (`getGoogleCalendarLink` with its `formatDate`);
  - the storage name of an event image (`getFileNameFromUrl`).
- **Public events** (`src/app/events/page.js`). This page has its own copies
  of `convertTo24Hour` and `getGoogleCalendarLink`, whose text repeats the
  admin page's verbatim. The model of this page shares the admin page's
  matcher and link builder, writes out the page's own steps around them, and
  proves that both pages agree.
- **Projects** (`src/app/admin/projects/page.js`). The model covers:
  - the storage name of a public URL and the URL repair `fixUrl`;
  - the page's state as a class, with the upload, submit, edit and delete
    handlers.

  A project carries an image or a video, never both. Uploading one medium
  deletes and clears the other, and a submit with both is refused. Uploading
  an image over an image (or a video over a video) does not remove the file
  it replaces. A submit removes an edited project's old file when the form's
  URL differs from the stored one; it compares URLs, not file names. A
  deletion removes the files of the deleted project.
- **Profile** (`src/app/admin/profile/page.js`). The page's state is a
  class, with the password change and the profile image upload. Its `fixUrl`
  is the projects page's, so the model uses that definition. Its
  `getFileNameFromUrl` has the same body as the projects page's, and adds the
  default bucket `officer-images`, which `OfficerFileName` models.

JavaScript's built-ins are modelled in `JsText` (`js_text.dfy`) and
`JsDate` (`js_date.dfy`), as far as the helpers use them:
- `split`, `indexOf`, `includes`, `startsWith`;
- `replace` with a string pattern, which replaces the first occurrence;
- `padStart`, ASCII `toUpperCase`, `parseInt`, and `%`, which truncates
  toward zero;
- number-to-text conversion, and `Date.prototype.toISOString` rendering.

Destructuring a split result that is too short gives `undefined`, which a
template literal prints as `"undefined"`; the model keeps that. Backend
answers (`Backend`, `backend.dfy`) are parameters. The state-changing
handlers record the storage removals and table writes they request.

What the link depends on is a `Runtime` value, passed as a parameter:
- the local-time parse that `new Date(text)` performs;
- the instant `new Date()` returns;
- the UTC calendar fields of an instant;
- `encodeURIComponent`.

Lemmas about the link assume `Runtime.Valid()`, meaning every instant has
calendar fields in range. Lemmas that read the link's query back assume the
encoder never produces `&`, which `encodeURIComponent` guarantees.

`fixUrl` is modelled as written. Its second rule tests for the prefix
`http://www.xrengineering.club/` but removes the first
`https://www.xrengineering.club/`. The model proves that this rule never
removes the prefix it tests for: it only drops an `https://` copy of the
site address that occurs later in the URL.

Two more consequences the model states:
- The profile upload requests the removal of the old image whatever the
  upload then returns. When the upload fails, the form still refers to the
  file whose removal was requested.
- On the projects page, two image uploads and a submit of a new project
  request no removal at all, so the first uploaded file is referred to by
  nothing.

## Model

| member | source | states |
|---|---|---|
| AdminEvents.MilitaryTo12OnClockText | src/app/admin/events/page.js:8-15 | "HH:MM" becomes the hour modulo 12 (0 shown as 12), the minutes unchanged, and PM exactly when the hour is 12 or more |
| AdminEvents.Match12Hour | src/app/admin/events/page.js:19-20 | a match of the pattern (one or two digits, ':', two digits, optional spaces, AM or PM in any case) yields the captured hour, minutes and meridiem of the whole text |
| AdminEvents.MatchComplete | src/app/admin/events/page.js:19-20 | every text of the pattern's shape is matched, with exactly those captures |
| AdminEvents.ConvertTo24Hour | src/app/admin/events/page.js:18-34 | a text that does not match the 12-hour pattern is returned unchanged |
| AdminEvents.To24HourOnMatch | src/app/admin/events/page.js:21-30 | on a match, the result is the hour (12 added for PM unless 12, 12 AM as 0) padded to two digits, ':' and the minutes |
| AdminEvents.RoundTrip24 | src/app/admin/events/page.js:8-34 | a 24-hour "HH:MM" (00-23) saved as 12-hour text converts back to the same "HH:MM" |
| AdminEvents.RoundTrip12 | src/app/admin/events/page.js:8-34 | a matched 12-hour text with hour 1-12 converted to 24 hours and back gives the canonical text (no space, upper-case meridiem) |
| AdminEvents.RoundTrip12Canonical | src/app/admin/events/page.js:8-34 | a canonical 12-hour text ("h:MMAM"/"h:MMPM") survives the round trip unchanged |
| AdminEvents.GuardIsRedundant | src/app/admin/events/page.js:258-264 | the "mentions AM or PM" guard before convertTo24Hour never changes the result |
| AdminEvents.ConvertDateForInput | src/app/admin/events/page.js:37-42 | a date that does not split into three parts at "/" is returned unchanged |
| AdminEvents.DateForInputOnStoredDate | src/app/admin/events/page.js:37-42 | "m/d/y" becomes "y-mm-dd" with month and day padded to two digits |
| AdminEvents.FormatFormData | src/app/admin/events/page.js:46-53 | only date and time change, and the time is the 12-hour text |
| AdminEvents.DateRoundTrip | src/app/admin/events/page.js:37-53 | "y-mm-dd" is stored as "mm/dd/y" and read back into the form unchanged |
| AdminEvents.EditForm | src/app/admin/events/page.js:258-268 | editing keeps every field but date and time, and the time is the 24-hour conversion |
| AdminEvents.SaveThenEdit | src/app/admin/events/page.js:46-53 | saving a valid form and then editing the saved event gives back the same form |
| AdminEvents.EditThenSave | src/app/admin/events/page.js:258-268 | editing a stored event and saving it again yields the padded date and the canonical 12-hour time |
| AdminEvents.FormatDate | src/app/admin/events/page.js:89-91 | the global replace of `[-:]` and `.ddd` never lengthens the text |
| AdminEvents.FormatDateShape | src/app/admin/events/page.js:89-91 | the result contains no '-' or ':' and only characters of the input |
| AdminEvents.FormatDateOfIso | src/app/admin/events/page.js:89-91 | formatDate of toISOString is the compact "YYYYMMDDTHHmmssZ" form of the instant's UTC fields |
| AdminEvents.CompactReadsBack | src/app/admin/events/page.js:89-91 | the compact form of a four-digit year reads back to the same fields, milliseconds dropped |
| AdminEvents.LocalStartTextOfStoredEvent | src/app/admin/events/page.js:59-78 | a stored "m/d/y" and 12-hour time become the local text "y-mm-ddTHH:MM:00" handed to the Date parser |
| AdminEvents.SavedStartText | src/app/admin/events/page.js:46-78 | an event saved from a valid form is parsed at exactly the form's date and time |
| AdminEvents.LocalStartTextExample | src/app/admin/events/page.js:56-78 | "10/14/2024" at "5:00 PM" becomes "2024-10-14T17:00:00" |
| AdminEvents.CalendarLinkFallback | src/app/admin/events/page.js:59-63 | the link is "#" exactly when the date does not split into three parts at "/" |
| AdminEvents.CalendarUrlQuery | src/app/admin/events/page.js:99 | a server reading the template's query gets the seven parameters back in order: action, text, dates, details, location, sf, output |
| AdminEvents.LinkAtQuery | src/app/admin/events/page.js:85-99 | the link's dates are the compact start and the compact end one hour later, and its text, details and location the encoded fields |
| AdminEvents.CalendarLinkQuery | src/app/admin/events/page.js:57-100 | for a valid runtime, the link opens https://calendar.google.com/calendar/render, and its query carries the encoded fields and the compact UTC start and start-plus-one-hour |
| AdminEvents.CalendarLinkAtParsed | src/app/admin/events/page.js:78-99 | when the local text parses to an instant, the link's dates are that instant and one hour later, in compact UTC form |
| AdminEvents.CalendarLinkAtNow | src/app/admin/events/page.js:78-99 | when the local text does not parse, the link's dates are "now" and one hour later, in compact UTC form |
| AdminEvents.EventFileName | src/app/admin/events/page.js:167-177 | null exactly for an empty URL or one without "/public/"; otherwise the segment after the first "/public/", without a leading "event-images/" |
| AdminEvents.EventFileNameOfPublicUrl | src/app/admin/events/page.js:167-177 | an event image's public URL maps back to the file's name |
| PublicEvents.ConvertTo24HourAgrees | src/app/events/page.js:8-23 | the public page's convertTo24Hour agrees with the admin page's on every text |
| PublicEvents.ReadsSavedTime | src/app/events/page.js:8-23 | the public page reads every time the admin page stores back to the form's "HH:MM" |
| PublicEvents.DateTimeTextAgrees | src/app/events/page.js:27-44 | the public page hands the Date parser the same text as the admin page |
| PublicEvents.GoogleCalendarLinkAgrees | src/app/events/page.js:26-66 | both pages build the same link for every event and runtime |
| PublicEvents.PublishedEventLink | src/app/events/page.js:26-66 | an event saved from the admin form is linked on the public page as the hour starting at the form's date and time |
| AdminProjects.FileNameFromUrl | src/app/admin/projects/page.js:9-14 | null exactly for an empty URL or one without "/public/<bucket>/"; otherwise the text between the first marker and the next |
| AdminProjects.FileNameOfPublicUrl | src/app/admin/projects/page.js:9-14 | a file's public URL maps back to the file's name |
| AdminProjects.RemovalOf | src/app/admin/projects/page.js:17-26 | at most one removal, from the given bucket, of the URL's non-empty file name, and none exactly when there is no name or it is empty |
| AdminProjects.FixUrlRepairs | src/app/admin/projects/page.js:29-38 | "https:/" followed by anything but '/' gets its second slash |
| AdminProjects.FixUrlKeepsHttps | src/app/admin/projects/page.js:29-38 | a URL already starting with "https://" is unchanged |
| AdminProjects.FixUrlSiteRule | src/app/admin/projects/page.js:34-36 | on a URL starting with the site's http:// address, the first https:// site address is removed, the tested prefix stays, and the URL is unchanged when that address does not occur |
| AdminProjects.FixUrlOther | src/app/admin/projects/page.js:29-38 | any other URL is unchanged |
| AdminProjects.FixUrlNonEmpty | src/app/admin/projects/page.js:29-38 | a non-empty URL stays non-empty |
| AdminProjects.FindProject | src/app/admin/projects/page.js:196 | the first listed project with the id, or none when no project has it |
| AdminProjects.StaleRemovalComparesUrls | src/app/admin/projects/page.js:163-170 | a submit removes the edited project's old file when the form's URL differs, even when the form's URL names that same file |
| AdminProjects.ProjectsPage.constructor | src/app/admin/projects/page.js:41-51 | the empty form, no project edited, nothing uploading, nothing requested |
| AdminProjects.ProjectsPage.Fetch | src/app/admin/projects/page.js:70-80 | the fetched rows replace the list; on an error it stays |
| AdminProjects.ProjectsPage.Edit | src/app/admin/projects/page.js:189-192 | the project fills the form and becomes the one edited |
| AdminProjects.ProjectsPage.ImageUpload | src/app/admin/projects/page.js:87-118 | no file: no change; failure: form unchanged; a public URL: the repaired URL becomes the image, and the video's file is removed and the video cleared |
| AdminProjects.ProjectsPage.VideoUpload | src/app/admin/projects/page.js:121-152 | the same with image and video exchanged |
| AdminProjects.ProjectsPage.Submit | src/app/admin/projects/page.js:154-187 | both media set: nothing changes; otherwise the stale files of the edited project are removed, the row is updated or inserted, and the form is reset; every row written has at most one medium |
| AdminProjects.ProjectsPage.Delete | src/app/admin/projects/page.js:194-210 | the files of the first listed project with that id are removed, then the row is deleted |
| AdminProjects.OrphanedImageUpload | src/app/admin/projects/page.js:86-187 | two image uploads and a submit on a fresh page insert the second image and request no removal, so the first file is referred to by nothing |
| AdminProfile.OfficerFileName | src/app/admin/profile/page.js:34-39 | the default bucket "officer-images": null exactly without that marker, otherwise the segment after it |
| AdminProfile.OfficerFileNameOfPublicUrl | src/app/admin/profile/page.js:34-39 | an officer image's public URL maps back to its file name |
| AdminProfile.ImageRemovalNamesFile | src/app/admin/profile/page.js:42-51 | at most one removal, of the officer-images file the image URL names, and none without an image or a name |
| AdminProfile.ProfilePage.constructor | src/app/admin/profile/page.js:7-18 | the empty form and password entries, nothing uploading, nothing requested |
| AdminProfile.ProfilePage.PasswordSubmit | src/app/admin/profile/page.js:147-161 | different entries: "Passwords do not match" and nothing sent; otherwise the password is sent, and the error message or the success message is shown, the entries being cleared only on success |
| AdminProfile.ProfilePage.FileUpload | src/app/admin/profile/page.js:90-126 | no file: no change; otherwise the current image's file is removed whatever the upload's outcome, a failed upload leaves the form on that removed file, and a public URL becomes the repaired image |
| JsText.Split | src/app/admin/events/page.js:9 | `split` gives at least one part, and the parts joined by the separator give back the text |
| JsText.SplitJoinChar | src/app/admin/events/page.js:38 | parts without the separator character split back out of their join |
| JsText.ReplaceFirst | src/app/admin/projects/page.js:32 | `replace` with a string replaces only the first occurrence, and nothing when there is none |
| JsText.ZeroPad | src/app/admin/events/page.js:41 | `padStart(w, "0")` keeps the text as the suffix, prefixes zeros only, and reaches width w |
| JsText.NatToString | src/app/admin/events/page.js:14 | a number's decimal text is digits with that value, with no leading zero except for 0 itself |
| JsText.JsRem | src/app/admin/events/page.js:12 | `%` truncates: the remainder takes the dividend's sign, lies within the divisor, and differs from the dividend by a multiple of the divisor |
| JsText.ParseIntDigits | src/app/admin/events/page.js:10 | `parseInt` of a digit string is its value |
| JsDate.PadReadsBack | src/app/admin/events/page.js:90 | a toISOString field is padded to its width and reads back to the number |

## Left out

- The JavaScript Date object is not modelled. Parsing a local date-time
  text, reading the clock, and splitting an instant into UTC calendar
  fields (time zones, leap years) are the `Runtime` parameters
  `parseLocal`, `now` and `utc`. Only the `toISOString` rendering of the
  fields is modelled.
- `encodeURIComponent` is the `Runtime.encode` parameter. Its internals are
  not modelled; the query lemmas assume only that its output has no `&`.
- `toUpperCase` is modelled for ASCII letters only.
- Texts are sequences of Unicode scalar values, not of UTF-16 code units.
  A character outside the Basic Multilingual Plane counts once, not twice,
  for `padStart` and for lengths. Lone surrogates cannot occur in the model.
- Errors JavaScript throws are not modelled:
  - `toISOString` throws a RangeError when the start or the end lies beyond
    the range of a Date (8.64e15 ms either side of 1970). The model's
    `parseLocal` and `now` may give any integer.
  - `encodeURIComponent` throws a URIError on a lone surrogate.
- `parseInt` returns a double. An hour of 16 or more digits is rounded
  before `% 12`, whereas the model computes with exact integers.
- Every backend call (storage upload, public URL, remove, table insert,
  update, delete and select, and the password update) is not modelled.
  Its answer is a parameter. Only three kinds of request are recorded, each
  in a log field: storage removals (`removals` on both pages), table
  inserts, updates and deletes (`ProjectsPage.writes`), and password updates
  (`ProfilePage.passwordUpdates`). Uploads, public-URL lookups and selects
  are not recorded, so the order of a removal relative to an upload is not
  stated.
- The handlers' `await`s are modelled as running in order without
  interleaving. The non-awaited `fetchProjects()` is modelled as
  completing at once.
- Logging (`console.error`/`console.log`), the `alert`, scrolling, the
  login redirect, and the JSX rendering are not modelled.
- The upload file path built from `Date.now()` and the file extension is
  not modelled: it only names the uploaded object, and the public URL that
  comes back is a parameter.
- The other handlers of these pages are not modelled: `handleChange`;
  the events page's `fetchEvents`, `deleteFileFromStorage`,
  `handleFileUpload`, `handleSubmit` and `handleDelete`; `formatDateTime`;
  and the profile's fetch and profile submit. The other pages of the site are not modelled
  either.
- `null`/`undefined` arguments are not modelled: every URL and text is a
  string, and JavaScript's falsy empty string is the empty sequence.
- AdminEvents.CalendarLinkQuery: states the query only for a valid runtime
  and an encoder without `&`, because the model has no calendar arithmetic
  or encoder of its own.
- AdminEvents.CompactReadsBack: requires a year from 0 to 9999. Other years
  print with a sign and six digits, and the compact reader does not cover
  them.
