# Covid-19 temperature screening API: contact tracing, site views and settings

This project models the query core of the Covid19TemperatureAPI web service. Capture devices store
body-temperature records and mask records, each naming a device, a person, a timestamp and a captured
image. Devices hang off gates, gates off floors, floors off buildings and buildings off sites. The model
covers these endpoints:

- **Contact tracing.** An alert is identified by the second it was raised in. From it the service shows:
  - the alerted person (`GetQueriedPersonDetails`);
  - that person's timeline since a start time, a full outer join of their temperature and mask records (`GetPersonRecord`);
  - who else was seen at the same gate in a time window (`GetPotentialView`, `GetPotentialContacts`);
  - all the alerts of a site between two dates (`GetAlertsByTimestamp`).
- **Site views.**
  - The devices of a site (`GetSiteDevices`).
  - Today's head counts and alert counts for a site, building, floor or gate (`GetSummary`).
  - Today's entrance log, which keeps the latest capture of every image (`GetEntranceLogForToday`).
- **Configuration.** `ConfigReader` resolves a setting in two tiers: a non-empty value in the
  Configurations table wins, otherwise the deployment configuration's default key is read.
- **Settings.**
  - Reading the effective temperature threshold.
  - Storing a new one, which also clears every device's `UpdatedThreshold` flag.

## Modules

- `Common`:
  - nullable values;
  - the response envelope (respcode 1200, 1201, or an exception raised after the handler returned);
  - the millisecond clock, with `AddMilliseconds(-Millisecond)`, `.Date` and the second-resolution rendering of a timestamp.
- `Decimals`:
  - `decimal` values as mantissa and scale;
  - `decimal.TryParse` on plain decimal text, refusing values beyond `decimal.MaxValue`;
  - the `"#.#"` format;
  - `Convert.ToDecimal` of that text.
- `Entities`: the tables and the navigation lookups `Device`, `Gate`, `Floor` and `Building`.
- `Linq`: `FirstOrDefault`, `Where`, `Select`, `Distinct` and `Union` on sequences.
- `ConfigReader`: the helper class of the same name.
- `Timeline`: the full outer join of temperature rows and mask rows, shared by the timeline, the alert list and the entrance log, and the descending timestamp order.
- `Topology`: the four scopes and the devices each one covers.
- `ContactTracing`, `Site` and `Settings`: the three controllers.

`ResetDevices` and `SetTemperatureThreshold` are imperative:
- the Devices table is an `array<Device>` updated in place by a loop;
- the Configurations table is a map passed in and returned updated.

Everything else is pure, as the LINQ queries are.

## Model

| member | source | states |
|---|---|---|
| Common.WithoutMilliseconds | Covid19TemperatureAPI/Controllers/ContactTracingController.cs:88 | the result is the start of t's second: at most t, less than a second before it, and a whole number of seconds |
| Common.DateOf | Covid19TemperatureAPI/Controllers/SiteController.cs:261-262 | the result is midnight of t's day: at most t, less than a day before it, and a whole number of days |
| Common.StampOfIsSecond | Covid19TemperatureAPI/Controllers/ContactTracingController.cs:240-241 | two timestamps render to the same key exactly when they lie in the same second |
| Decimals.ParseDecimal | Covid19TemperatureAPI/Helper/ConfigReader.cs:32-34 | a value is produced exactly when the text is decimal text (an optional leading sign, digits, at most one point and at least one digit) whose value lies within `decimal.MaxValue`; that value is the digits before the point scaled by the fraction's length plus the fraction, at the fraction's scale, negated after '-' |
| Decimals.DigitsValueConcat | Covid19TemperatureAPI/Helper/ConfigReader.cs:32-34 | reading the digits of a + b as one number gives a shifted left by the length of b, plus b |
| Decimals.ParseDecimalValue | Covid19TemperatureAPI/Controllers/SettingsController.cs:129 | sign + whole + "." + fraction (point and fraction optional) parses to ±(whole · 10^n + fraction) at scale n, n the fraction's length, when that lies within `decimal.MaxValue`, and fails otherwise |
| Decimals.ParseDigitsOnly | Covid19TemperatureAPI/Controllers/SettingsController.cs:129 | a run of digits parses to the whole number it spells, at scale 0, unless it exceeds `decimal.MaxValue` |
| Decimals.RoundToTenths | Covid19TemperatureAPI/Controllers/ContactTracingController.cs:240 | the tenths count lies within half a tenth of the value, and on a tie it is the one farther from zero; a whole number gives ten times itself |
| Decimals.RenderOneDecimal | Covid19TemperatureAPI/Controllers/ContactTracingController.cs:240 | `"#.#"` gives the empty text exactly when the value rounds to zero tenths, and otherwise the rounded tenths |
| Decimals.ToDecimal | Covid19TemperatureAPI/Controllers/ContactTracingController.cs:936 | `Convert.ToDecimal` fails exactly on the empty text; otherwise it gives the shown tenths at scale 1 |
| Decimals.OneDecimalRoundTrip | Covid19TemperatureAPI/Controllers/ContactTracingController.cs:936 | a non-zero value with one decimal digit, rendered with `"#.#"` and converted back, is itself |
| Linq.FirstWhere | Covid19TemperatureAPI/Controllers/ContactTracingController.cs:87-90 | null exactly when nothing matches; otherwise a matching element with no match before it |
| Linq.Where | Covid19TemperatureAPI/Controllers/ContactTracingController.cs:233-234 | keeps exactly the elements that satisfy the predicate, and keeps a duplicate-free input duplicate-free |
| Linq.Select | Covid19TemperatureAPI/Controllers/ContactTracingController.cs:235-243 | keeps the length, position by position, and its elements are exactly the images of the input's |
| Linq.Distinct | Covid19TemperatureAPI/Controllers/ContactTracingController.cs:244 | no duplicates, the same elements, and no longer than the input |
| Linq.Union | Covid19TemperatureAPI/Controllers/ContactTracingController.cs:287 | no duplicates, and holds exactly the elements of either side |
| ConfigReader.Resolve | Covid19TemperatureAPI/Helper/ConfigReader.cs:44-51 | a non-empty stored value is returned; a missing or empty one gives the deployment value of the default key, or null |
| ConfigReader.StoredValueShadowsDeployment | Covid19TemperatureAPI/Helper/ConfigReader.cs:44-51 | with a non-empty stored value, the deployment configuration does not affect the result |
| ConfigReader.GetText | Covid19TemperatureAPI/Helper/ConfigReader.cs:42-89 | each string setting resolves as the stored value if it is non-empty, otherwise as its own default key |
| ConfigReader.EmailSubjectFallsBackToHeader | Covid19TemperatureAPI/Helper/ConfigReader.cs:67-89 | with nothing stored, each email subject equals the matching alert header's deployment default |
| ConfigReader.FlagValue | Covid19TemperatureAPI/Helper/ConfigReader.cs:104-107 | a flag is on exactly when the effective text is "1" |
| ConfigReader.GetFlag | Covid19TemperatureAPI/Helper/ConfigReader.cs:92-160 | each flag is on exactly when its resolved value is "1" |
| ConfigReader.StoredFlagDecides | Covid19TemperatureAPI/Helper/ConfigReader.cs:92-107 | a non-empty stored flag alone decides the result, and only "1" turns it on |
| ConfigReader.TryParse | Covid19TemperatureAPI/Helper/ConfigReader.cs:32-34 | succeeds exactly on present decimal text within the range of `decimal` |
| ConfigReader.GetTemperatureThreshold | Covid19TemperatureAPI/Helper/ConfigReader.cs:30-40 | the stored threshold if it parses; else the deployment default if it parses; else 0 |
| ConfigReader.UnparseableThresholdFallsBack | Covid19TemperatureAPI/Helper/ConfigReader.cs:30-40 | an unparseable stored threshold acts as if the row were absent |
| Timeline.InsertByTimestamp | Covid19TemperatureAPI/Controllers/ContactTracingController.cs:287-289 | inserting into a sorted list keeps it sorted and adds exactly one occurrence of the element |
| Timeline.OrderByTimestampDesc | Covid19TemperatureAPI/Controllers/ContactTracingController.cs:287-289 | the result is most recent first and is a permutation of the input |
| Timeline.FullOuterJoin | Covid19TemperatureAPI/Controllers/ContactTracingController.cs:259-289 | the join is sorted most recent first, has no duplicates, and holds exactly the rows built from a temperature row (mask found or not) or from a mask row (with the temperature of a row in its second, or empty) |
| Timeline.JoinKeepsEveryRow | Covid19TemperatureAPI/Controllers/ContactTracingController.cs:259-285 | every temperature row appears, marked "no mask" exactly when a mask row shares its second; every mask row appears, with an empty temperature exactly when no temperature row shares it |
| Timeline.MaskFlagMeansNoMaskRecord | Covid19TemperatureAPI/Controllers/ContactTracingController.cs:259-285 | an entry's Mask is false exactly when a mask row lies in its second |
| Timeline.JoinedEntryOrigin | Covid19TemperatureAPI/Controllers/ContactTracingController.cs:259-285 | every entry carries the second, the name and the side's visitor flag of a temperature row or of a mask row |
| Timeline.JoinShowsEveryMaskRow | Covid19TemperatureAPI/Controllers/ContactTracingController.cs:273-285 | every mask row is reported in its second under its name with Mask false |
| Topology.ScopeDevices | Covid19TemperatureAPI/Controllers/SiteController.cs:252-254 | a device id is in scope exactly when a device with it reaches the scope through its gate, floor and building links |
| Topology.ScopesNest | Covid19TemperatureAPI/Controllers/SiteController.cs:672-674 | with unique keys, a gate's devices are among its floor's, a floor's among its building's, a building's among its site's |
| ContactTracing.ResolveAlert | Covid19TemperatureAPI/Controllers/ContactTracingController.cs:586-612 | null exactly when no record lies in the alert's second; otherwise the first temperature record there, and a mask record only when no temperature record is there |
| ContactTracing.TemperatureTakesPrecedence | Covid19TemperatureAPI/Controllers/ContactTracingController.cs:586-612 | a temperature record in the alert's second always makes the alert a temperature alert |
| ContactTracing.EmployeeImage | Covid19TemperatureAPI/Controllers/ContactTracingController.cs:96-99 | the image of the first employee with the uid; null when there is none |
| ContactTracing.GetQueriedPersonDetails | Covid19TemperatureAPI/Controllers/ContactTracingController.cs:73-158 | fails with a null reference exactly when the alert cannot be resolved; otherwise gives the record's name, the employee image falling back to the capture, the capture, and the visitor flag "no employee image" |
| ContactTracing.UnknownPersonIsVisitor | Covid19TemperatureAPI/Controllers/ContactTracingController.cs:94-107 | a person whom no employee row with an image names is shown as a visitor with the captured image |
| ContactTracing.SubjectOf | Covid19TemperatureAPI/Controllers/ContactTracingController.cs:231 | the timeline follows the mobile exactly when the PersonUID is the visitor sentinel "0" |
| ContactTracing.SubjectTemperatureRows | Covid19TemperatureAPI/Controllers/ContactTracingController.cs:233-244 | no duplicates, and exactly the projected temperature records of the subject from the start on |
| ContactTracing.SubjectMaskRows | Covid19TemperatureAPI/Controllers/ContactTracingController.cs:246-257 | no duplicates, and exactly the projected mask records of the subject from the start on |
| ContactTracing.PersonTimeline | Covid19TemperatureAPI/Controllers/ContactTracingController.cs:233-289 | most recent first, no duplicates, exactly the joined rows of the subject's records |
| ContactTracing.GetPersonRecord | Covid19TemperatureAPI/Controllers/ContactTracingController.cs:202-529 | succeeds exactly when the alert resolves, with that person's timeline; otherwise fails with a null reference; never fails outside the handler |
| ContactTracing.TimelineOnlyShowsSubject | Covid19TemperatureAPI/Controllers/ContactTracingController.cs:233-257 | every row stands for one of the subject's records from the start on, at its second and under its name |
| ContactTracing.TimelineShowsAllOfSubject | Covid19TemperatureAPI/Controllers/ContactTracingController.cs:259-285 | every temperature record of the subject appears, marked "no mask" exactly when one of their mask records shares its second; every mask record appears marked "no mask" |
| ContactTracing.TimelineVisitorFlag | Covid19TemperatureAPI/Controllers/ContactTracingController.cs:298-350 | a visitor's rows are all flagged visitor; an employee's temperature rows are not, but rows from their mask records are |
| ContactTracing.SiblingDevices | Covid19TemperatureAPI/Controllers/ContactTracingController.cs:596-601 | null exactly when the anchor's device is missing; otherwise the ids of all devices at its gate |
| ContactTracing.AnchorDeviceIsSibling | Covid19TemperatureAPI/Controllers/ContactTracingController.cs:596-601 | the anchor's own device is among its gate's devices |
| ContactTracing.CoLocated | Covid19TemperatureAPI/Controllers/ContactTracingController.cs:627-632 | exactly the temperature records on the devices with start <= timestamp <= end |
| ContactTracing.EmployeeMatches | Covid19TemperatureAPI/Controllers/ContactTracingController.cs:628-629 | every employee with the uid, or a single null when there is none |
| ContactTracing.JoinEmployees | Covid19TemperatureAPI/Controllers/ContactTracingController.cs:627-629 | exactly the pairs of a record with an employee it joins to, or with null |
| ContactTracing.PotentialView | Covid19TemperatureAPI/Controllers/ContactTracingController.cs:627-641 | one row per distinct (id, name, visitor) of the co-located records, with the id dropped |
| ContactTracing.GetPotentialView | Covid19TemperatureAPI/Controllers/ContactTracingController.cs:569-664 | "Could not find the alert" when the alert does not resolve; a failure outside the handler when its device is missing; otherwise the potential view of its gate |
| ContactTracing.PotentialViewShowsEveryone | Covid19TemperatureAPI/Controllers/ContactTracingController.cs:634-640 | a visitor seen in the window appears under their captured name, and an employee under their employee name |
| ContactTracing.GetPotentialContacts | Covid19TemperatureAPI/Controllers/ContactTracingController.cs:708-805 | the same error cases; otherwise rows for every co-located record and each employee it joins to, without deduplication |
| ContactTracing.SiteTemperatureRows | Covid19TemperatureAPI/Controllers/ContactTracingController.cs:871-884 | no duplicates, exactly the projected temperature records of the site dated from start to end |
| ContactTracing.SiteMaskRows | Covid19TemperatureAPI/Controllers/ContactTracingController.cs:886-899 | no duplicates, exactly the projected mask records of the site dated from start to end |
| ContactTracing.AllAlerts | Covid19TemperatureAPI/Controllers/ContactTracingController.cs:901-931 | no duplicates, exactly the joined rows of the site's records, with the visitor flag set by the sentinel |
| ContactTracing.GetAlertsByTimestamp | Covid19TemperatureAPI/Controllers/ContactTracingController.cs:850-958 | fails outside the handler exactly when some row with Mask true has an empty temperature; otherwise gives, most recent first and once each, exactly the rows with Mask false or a temperature above the threshold |
| ContactTracing.AlertsKeepMaskRecords | Covid19TemperatureAPI/Controllers/ContactTracingController.cs:936 | on success, every mask record of the site in the window is reported, whatever the threshold |
| ContactTracing.AlertsFilterUnmatchedTemperatures | Covid19TemperatureAPI/Controllers/ContactTracingController.cs:936 | on success, a temperature record with no mask record in its second is reported exactly when its one-decimal temperature is above the threshold |
| Site.GetSiteDevices | Covid19TemperatureAPI/Controllers/SiteController.cs:167-183 | with unique keys, the devices the four-table join lists are exactly the site's devices reached through the navigation links |
| Site.GetSummary | Covid19TemperatureAPI/Controllers/SiteController.cs:256-330 | the five counts are the sizes of the distinct employee-id and mobile sets; the employees alerted for temperature or for no mask are among the employees seen, the visitors alerted among the visitors seen; alerts is the sum of the two alert counts, and neither exceeds the people seen |
| Site.SummaryIgnoresOtherRecords | Covid19TemperatureAPI/Controllers/SiteController.cs:256-318 | records from another day or from a device outside the scope leave every count unchanged |
| Site.VisitorMaskAlertsIgnoreMaskValue | Covid19TemperatureAPI/Controllers/SiteController.cs:313-318 | with no mask record at the no-mask value, no employee counts as a no-mask alert, but every visitor seen at a mask camera still does |
| Site.GroupLatest | Covid19TemperatureAPI/Controllers/SiteController.cs:826-829 | null exactly when no capture has the image; otherwise the latest timestamp among that image's captures |
| Site.LatestStamps | Covid19TemperatureAPI/Controllers/SiteController.cs:826-829 | exactly the rendered latest timestamps of the image groups |
| Site.TemperatureLog | Covid19TemperatureAPI/Controllers/SiteController.cs:826-827 | exactly the (image, timestamp) pairs of today's temperature records on the site |
| Site.MaskLog | Covid19TemperatureAPI/Controllers/SiteController.cs:831-832 | exactly the (image, timestamp) pairs of today's mask records on the site |
| Site.EntranceTemperatureRows | Covid19TemperatureAPI/Controllers/SiteController.cs:836-851 | no duplicates, exactly the projected temperature records, of any day or device, whose second is the latest second of one of today's image groups |
| Site.EntranceMaskRows | Covid19TemperatureAPI/Controllers/SiteController.cs:853-869 | the same for mask records |
| Site.GetEntranceLogForToday | Covid19TemperatureAPI/Controllers/SiteController.cs:808-933 | most recent first, no duplicates, exactly the joined rows of the latest captures |
| Site.EntranceLogKeepsLatestCapture | Covid19TemperatureAPI/Controllers/SiteController.cs:826-851 | for each of today's temperature records, a capture of the same image, no earlier and of today on the site, is among the log's temperature rows, and the log holds its entry |
| Site.EntranceLogDropsEarlierCaptures | Covid19TemperatureAPI/Controllers/SiteController.cs:836-838 | a record in no group's latest second is not in the log |
| Settings.GetTemperatureThresholdText | Covid19TemperatureAPI/Controllers/SettingsController.cs:65-92 | always succeeds; the text is empty exactly when the effective threshold rounds to zero tenths, otherwise it shows the rounded tenths |
| Settings.SetThreshold | Covid19TemperatureAPI/Controllers/SettingsController.cs:127-138 | text that `decimal.TryParse` refuses, a value beyond `decimal.MaxValue` included, gives "Invalid threshold value"; a missing threshold row gives a null reference; otherwise only that row changes, to the text as received |
| Settings.ResetThresholdFlags | Covid19TemperatureAPI/Controllers/SettingsController.cs:141-149 | the same devices in the same order, all with UpdatedThreshold false, with ids, details and gates unchanged |
| Settings.ResetDevices | Covid19TemperatureAPI/Controllers/SettingsController.cs:141-149 | the array afterwards is the reset of its old contents |
| Settings.SetTemperatureThreshold | Covid19TemperatureAPI/Controllers/SettingsController.cs:117-167 | succeeds exactly as the update does, returning the updated table and resetting every device; on failure neither table changes and the error message is the update's |
| Settings.ThresholdRoundTrip | Covid19TemperatureAPI/Controllers/SettingsController.cs:129-138 | after a successful update the effective threshold is the decimal sent, whatever the deployment configuration holds |
| Settings.ThresholdShownAsSent | Covid19TemperatureAPI/Controllers/SettingsController.cs:71 | a threshold sent with one non-zero decimal digit is read back, through `"#.#"`, as that value |

## Left out

- Request parsing:
  - JSON deserialisation is not modelled.
  - A `DateTime.TryParse` or `int.TryParse` of a request field is a parameter of the model: the value it parses to, or the default (0, the calendar origin) when it fails.
  - A missing or null `Threshold` fails `decimal.TryParse` as the empty text does.
- Culture:
  - `decimal.TryParse` and `Convert.ToDecimal` are modelled on invariant-culture decimal text: an optional leading sign, digits and one point. The default number style also accepts leading and trailing white space, thousands separators and a trailing sign ("37.5-" is -37.5): the model refuses these texts, so Settings.SetThreshold answers "Invalid threshold value" for them and ConfigReader.GetTemperatureThreshold falls back to the default. Other cultures are not modelled. Exponents are refused by both.
  - `DateTime.ToString()` depends on the server culture. Timestamp text is modelled by the index of the second it names. `Remove(Length - 8)` is taken to leave that second identifiable.
  - `orderby` on that text is modelled as chronological order of the seconds, most recent first. The source sorts the culture-dependent text itself.
- Decimals.ParseDecimal: refuses a trailing sign and surrounding white space, which .NET accepts (see Culture above). A text with more significant digits than a `decimal` holds (28 or 29) keeps its exact value, where .NET rounds it to the nearest representable one. A text just above `decimal.MaxValue` that .NET would round down into range is refused.
- `TemperatureThresholdConfigSettingName`: ConfigReader declares no such member. It is taken to be "TemperatureThreshold", the key the threshold getter reads. Settings.SetThreshold, Settings.SetTemperatureThreshold and Settings.ThresholdRoundTrip depend on that choice.
- Timestamp precision:
  - A database provider may render a timestamp key with fractional seconds. The joins would then match only identical instants, not identical seconds.
  - Sub-millisecond ticks are not modelled: timestamps have millisecond resolution.
- `ConvertImageUrlToBase64` (an HTTP fetch) is the parameter `fetch`. It has no failure path in the model.
- `DateTime.Today` is the parameter `today`.
- Logging, SignalR, SMS and e-mail sending, the Entity Framework change tracker and `SaveChanges` failures are not part of this model.
- String columns:
  - A null string column is the empty string.
  - A join key that is null is matched like any other string. SQL would never match a null key.
  - String keys are compared exactly, character by character. The database compares them under its collation, which by default ignores case and trailing blanks. This affects:
    - the joins of employee UID with PersonUID (Site.EmployeesPresent, Site.EmployeeTemperatureAlerts, Site.EmployeeMaskAlerts, ContactTracing.EmployeeImage, ContactTracing.EmployeeMatches);
    - the `ConfigKey ==` lookups (ConfigReader.Stored);
    - the comparisons with the visitor sentinel "0" and with the subject's UID or mobile in the contact-tracing queries;
    - the distinct counts on ids and mobiles in Site.GetSummary.

    For example, an employee with UID "ab12" is not matched to a record with PersonUID "AB12", though the database would match them.
- Tables:
  - Tables are sequences in table order.
  - `GetSiteDevices` is modelled as the set of joined rows. The order of the SQL result and any repeated rows are not modelled.
  - The Configurations table is a map, so it holds at most one row per key.
- `GetPotentialContacts` and `GetPotentialView` (ContactTracing.ViewKeyOf): a co-located non-visitor record whose PersonUID no employee has is given a null id and a null name. The source evaluates `c.EmployeeId` and `c.EmployeeName` on the `DefaultIfEmpty` null there; whether the database returns null or the exception surfaces depends on the provider.
- `Temperature` as `c.Temperature.ToString()` on the mask side of a join is the already-rendered `"#.#"` text, so it is modelled as that same value.
- Settings.SetTemperatureThreshold: the configuration save and the device loop run as two separate `SaveChanges` calls. A failure between them is not modelled.
- The other controllers (departments, employees, notifications, sessions, the mobile and SenseTime endpoints) and the seeding code are not part of this model.
