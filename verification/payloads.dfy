/** The home page's request builder (`HomeApp.payloads`): form fields read as
    numbers and as date-time parts, a relationship partner filled in from
    its defaults, and the request body chosen by the chart mode. The form is
    a map from element id to the element's value; an id that is not in the
    map is an element the page does not have. */
module Payloads {
  import opened Wrappers
  import opened Text
  import Config

  type Form = map<string, string>

  /** `getValue(id)`: the element's value, "" when there is no element. */
  function GetValue(form: Form, id: string): string {
    if id in form then form[id] else ""
  }

  /** `toFloat(id, fallback)`: the number the field starts with, or the
      fallback when it does not start with one. */
  function ToFloat(form: Form, id: string, fallback: real): (r: real)
    ensures r == fallback || (id in form && Some(r) == ParseFloat(form[id]))
    ensures NumberOr(form, id, fallback, r)
  {
    ParseFloat(GetValue(form, id)).GetOr(fallback)
  }

  /** A field holding a digit string reads as that number; a missing field
      gives the fallback. */
  lemma ToFloatReads(form: Form, id: string, fallback: real)
    ensures id in form && |form[id]| > 0 && AllDigits(form[id]) ==> ToFloat(form, id, fallback) == DigitsValue(form[id]) as real
    ensures id !in form ==> ToFloat(form, id, fallback) == fallback
  {
    if id in form && |form[id]| > 0 && AllDigits(form[id]) {
      ParseFloatDigits(form[id]);
    }
    if id !in form {
      assert ParseFloat("") == None;
    }
  }

  // ---------------------------------------------------------------------------
  // getDateTimeParts
  // ---------------------------------------------------------------------------

  datatype DateTimeParts = DateTimeParts(year: int, month: int, day: int, hour: int, minute: int)

  /** `parseInt` of the i-th part, `None` (`NaN`) when there is no such part. */
  function ReadPart(parts: seq<string>, i: nat): Option<int> {
    if i < |parts| then ParseInt(parts[i]) else None
  }

  /** `getDateTimeParts(dateId, timeId, defaults)`: the trimmed date split at
      "-" and the trimmed time split at ":", every part read with `parseInt`
      and replaced by its default on its own when it does not read as a
      number. A time without a colon takes the default minute. */
  function GetDateTimeParts(form: Form, dateId: string, timeId: string, defaults: DateTimeParts): (r: DateTimeParts)
    // a blank date keeps the default year, month and day
    ensures Trim(GetValue(form, dateId)) == "" ==>
              r.year == defaults.year && r.month == defaults.month && r.day == defaults.day
    // a blank time keeps the default hour and minute; the minute comes from
    // reading the default back from its decimal text
    ensures Trim(GetValue(form, timeId)) == "" ==> r.hour == defaults.hour && r.minute == defaults.minute
    // a time without a colon keeps the default minute
    ensures ':' !in GetValue(form, timeId) ==> r.minute == defaults.minute
  {
    var dateText := Trim(GetValue(form, dateId));
    var timeText := Trim(GetValue(form, timeId));
    assert ':' in timeText ==> ':' in GetValue(form, timeId);
    ReadDefaults(dateText, timeText, defaults.minute);
    var date := ReadDate(dateText);
    var time := ReadTime(timeText, defaults.minute);
    DateTimeParts(date.0.GetOr(defaults.year), date.1.GetOr(defaults.month), date.2.GetOr(defaults.day),
      time.0.GetOr(defaults.hour), time.1.GetOr(defaults.minute))
  }

  /** The first three "-"-separated parts of a date, read with `parseInt`. */
  function ReadDate(text: string): (Option<int>, Option<int>, Option<int>) {
    var parts := Split(text, '-');
    (ReadPart(parts, 0), ReadPart(parts, 1), ReadPart(parts, 2))
  }

  /** The hour and minute parts of a time, read with `parseInt`; a missing
      minute part is the default minute's decimal text. */
  function ReadTime(text: string, minute: int): (Option<int>, Option<int>) {
    var parts := Split(text, ':');
    (ReadPart(parts, 0), ParseInt(if |parts| > 1 then parts[1] else IntToString(minute)))
  }

  /** The hour and minute parts of a partner's time, read with `parseInt`. */
  function ReadClock(text: string): (Option<int>, Option<int>) {
    var parts := Split(text, ':');
    (ReadPart(parts, 0), ReadPart(parts, 1))
  }

  /** What the date and time readers give for blank text and for a time
      without a colon. */
  lemma ReadDefaults(dateText: string, timeText: string, minute: int)
    ensures dateText == "" ==> ReadDate(dateText) == (None, None, None)
    ensures timeText == "" ==> ReadTime(timeText, minute) == (None, Some(minute))
    ensures ':' !in timeText ==> ReadTime(timeText, minute).1 == Some(minute)
  {
    if dateText == "" {
      ReadDateBlank();
    }
    if timeText == "" {
      ReadTimeBlank(minute);
    } else {
      ReadTimeNoColon(timeText, minute);
    }
  }

  lemma ReadDateBlank()
    ensures ReadDate("") == (None, None, None)
  {
    EmptyReadsNothing();
  }

  lemma ReadTimeBlank(minute: int)
    ensures ReadTime("", minute) == (None, Some(minute))
  {
    EmptyReadsNothing();
    ParseIntOfIntToString(minute);
  }

  lemma ReadTimeNoColon(text: string, minute: int)
    ensures ':' !in text ==> ReadTime(text, minute).1 == Some(minute)
  {
    if ':' !in text {
      SplitOne(text, ':');
      ParseIntOfIntToString(minute);
    }
  }

  /** The empty text splits into one empty part, which is not a number. */
  lemma EmptyReadsNothing()
    ensures forall sep :: Split("", sep) == [""]
    ensures ParseInt("") == None
  {
  }

  /** A form holding the date as "YYYY-MM-DD" and the time as "HH:MM" reads
      back as exactly those numbers, whatever the defaults. */
  lemma GetDateTimePartsRoundTrip(form: Form, dateId: string, timeId: string, defaults: DateTimeParts,
                                  y: nat, mo: nat, d: nat, h: nat, mi: nat)
    requires dateId in form && form[dateId] == Pad(y) + ['-'] + Pad(mo) + ['-'] + Pad(d)
    requires timeId in form && form[timeId] == Pad(h) + [':'] + Pad(mi)
    ensures GetDateTimeParts(form, dateId, timeId, defaults) == DateTimeParts(y, mo, d, h, mi)
  {
    ReadDateOfPads(y, mo, d);
    ReadTimeOfPads(h, mi, defaults.minute);
  }

  lemma ReadDateOfPads(y: nat, mo: nat, d: nat)
    ensures ReadDate(Trim(Pad(y) + ['-'] + Pad(mo) + ['-'] + Pad(d))) == (Some(y), Some(mo), Some(d))
  {
    DateFields(y, mo, d);
    ParseIntOfPad(y);
    ParseIntOfPad(mo);
    ParseIntOfPad(d);
  }

  lemma ReadTimeOfPads(h: nat, mi: nat, minute: int)
    ensures ReadTime(Trim(Pad(h) + [':'] + Pad(mi)), minute) == (Some(h), Some(mi))
  {
    TimeFields(h, mi);
    ParseIntOfPad(h);
    ParseIntOfPad(mi);
  }

  lemma DateFields(y: nat, mo: nat, d: nat)
    ensures var s := Pad(y) + ['-'] + Pad(mo) + ['-'] + Pad(d);
      Split(Trim(s), '-') == [Pad(y), Pad(mo), Pad(d)]
  {
    PadPlain(y);
    PadPlain(mo);
    PadPlain(d);
    DashedText(Pad(y), Pad(mo), Pad(d));
  }

  lemma TimeFields(h: nat, mi: nat)
    ensures var s := Pad(h) + [':'] + Pad(mi);
      Split(Trim(s), ':') == [Pad(h), Pad(mi)]
  {
    PadPlain(h);
    PadPlain(mi);
    TrimmedConcat(Pad(h), [':'], Pad(mi));
    SplitTwo(Pad(h), Pad(mi), ':');
  }

  /** A time holding only an hour keeps that hour and the default minute. */
  lemma GetDateTimePartsHourOnly(form: Form, dateId: string, timeId: string, defaults: DateTimeParts, h: nat)
    requires timeId in form && form[timeId] == NatToString(h)
    ensures GetDateTimeParts(form, dateId, timeId, defaults).hour == h
    ensures GetDateTimeParts(form, dateId, timeId, defaults).minute == defaults.minute
  {
    var s := NatToString(h);
    DigitsClean(s);
    assert Trim(GetValue(form, timeId)) == s;
    ReadTimeOfDigits(s, defaults.minute);
  }

  /** A digit string is trimmed and has no colon. */
  lemma DigitsClean(s: string)
    requires |s| > 0 && AllDigits(s)
    ensures Trimmed(s) && ':' !in s
  {
    assert !IsSpace(s[0]) && !IsSpace(s[|s| - 1]);
  }

  /** A bare digit string reads as the hour. */
  lemma ReadTimeOfDigits(s: string, minute: int)
    requires |s| > 0 && AllDigits(s)
    ensures ReadTime(s, minute).0 == Some(DigitsValue(s))
  {
    DigitsClean(s);
    SplitOne(s, ':');
    ParseIntDigits(s);
  }

  // ---------------------------------------------------------------------------
  // buildRelationshipPartner
  // ---------------------------------------------------------------------------

  /** The defaults handed to `buildRelationshipPartner`. */
  datatype PartnerDefaults = PartnerDefaults(
    name: string, date: string, time: string, lat: real, lng: real,
    tz: string, city: string, nation: string)

  /** A year, month or day of a partner: the number read from the form, the
      default date's text for that part, or `undefined` when the default date
      has no such part. */
  datatype PartField = Parsed(n: int) | Raw(text: string) | Undefined

  datatype Partner = Partner(
    name: string, year: PartField, month: PartField, day: PartField,
    hour: int, minute: int, lat: real, lng: real,
    tz: string, city: string, nation: string)

  /** `getVal(suffix, fallback)`: the value of the element `prefix + suffix`
      when it exists and is not empty, else the fallback. */
  function GetVal(form: Form, id: string, fallback: string): (r: string)
    ensures r == fallback || (id in form && r == form[id] && r != "")
    ensures id in form && form[id] != "" ==> r == form[id]
  {
    if id in form && form[id] != "" then form[id] else fallback
  }

  /** `parseFloat(getVal(suffix, fallback)) || fallback`: a non-zero number read
      from the field, else the fallback. */
  function Coordinate(form: Form, id: string, fallback: real): (r: real)
    ensures r == fallback || (id in form && Some(r) == ParseFloat(form[id]))
    ensures r == 0.0 ==> fallback == 0.0
    ensures id in form && form[id] != "" && ParseFloat(form[id]).Some? && ParseFloat(form[id]).value != 0.0 ==>
              r == ParseFloat(form[id]).value
    ensures id !in form || form[id] == "" || ParseFloat(form[id]).None? || ParseFloat(form[id]) == Some(0.0) ==>
              r == fallback
  {
    if id in form && form[id] != "" then
      match ParseFloat(form[id])
      case Some(x) => if x != 0.0 then x else fallback
      case None => fallback
    else fallback
  }

  /** The i-th "-"-separated part of the default date, as text. */
  function DefaultPart(date: string, i: nat): PartField {
    var parts := Split(date, '-');
    if i < |parts| then Raw(parts[i]) else Undefined
  }

  function PartOr(read: Option<int>, date: string, i: nat): PartField {
    match read
    case Some(n) => Parsed(n)
    case None => DefaultPart(date, i)
  }

  /** `buildRelationshipPartner(prefix, defaults)`. Date and time are taken
      untrimmed; a year, month or day that does not read as a number becomes
      the default date's text for it, an unreadable hour 12 and minute 0, and
      a coordinate that reads as 0 or not at all the default. */
  function BuildRelationshipPartner(form: Form, prefix: string, defaults: PartnerDefaults): (r: Partner)
    ensures r.name == defaults.name || (prefix + "Name" in form && r.name == form[prefix + "Name"] != "")
    ensures prefix + "Name" !in form ==> r.name == defaults.name
    ensures r.year.Parsed? || r.year == DefaultPart(defaults.date, 0)
    ensures r.month.Parsed? || r.month == DefaultPart(defaults.date, 1)
    ensures r.day.Parsed? || r.day == DefaultPart(defaults.date, 2)
    ensures r.lat == 0.0 ==> defaults.lat == 0.0
    ensures r.lng == 0.0 ==> defaults.lng == 0.0
    ensures prefix + "Tz" !in form ==> r.tz == defaults.tz
    ensures prefix + "City" !in form ==> r.city == defaults.city
    ensures prefix + "Nation" !in form ==> r.nation == defaults.nation
    ensures prefix + "Tz" in form && form[prefix + "Tz"] != "" ==> r.tz == form[prefix + "Tz"]
    ensures prefix + "City" in form && form[prefix + "City"] != "" ==> r.city == form[prefix + "City"]
    ensures prefix + "Nation" in form && form[prefix + "Nation"] != "" ==> r.nation == form[prefix + "Nation"]
    ensures var date := ReadDate(GetVal(form, prefix + "Date", defaults.date));
      (date.0.Some? ==> r.year == Parsed(date.0.value)) &&
      (date.1.Some? ==> r.month == Parsed(date.1.value)) &&
      (date.2.Some? ==> r.day == Parsed(date.2.value))
    ensures var clock := ReadClock(GetVal(form, prefix + "Time", defaults.time));
      (clock.0.Some? ==> r.hour == clock.0.value) && (clock.0.None? ==> r.hour == 12) &&
      (clock.1.Some? ==> r.minute == clock.1.value) && (clock.1.None? ==> r.minute == 0)
    ensures var lat := prefix + "Lat";
      lat in form && form[lat] != "" && ParseFloat(form[lat]).Some? && ParseFloat(form[lat]).value != 0.0 ==>
        r.lat == ParseFloat(form[lat]).value
    ensures var lng := prefix + "Lng";
      lng in form && form[lng] != "" && ParseFloat(form[lng]).Some? && ParseFloat(form[lng]).value != 0.0 ==>
        r.lng == ParseFloat(form[lng]).value
  {
    var (y, mo, d) := ReadDate(GetVal(form, prefix + "Date", defaults.date));
    var (h, mi) := ReadClock(GetVal(form, prefix + "Time", defaults.time));
    Partner(
      GetVal(form, prefix + "Name", defaults.name),
      PartOr(y, defaults.date, 0), PartOr(mo, defaults.date, 1), PartOr(d, defaults.date, 2),
      h.GetOr(12), mi.GetOr(0),
      Coordinate(form, prefix + "Lat", defaults.lat),
      Coordinate(form, prefix + "Lng", defaults.lng),
      GetVal(form, prefix + "Tz", defaults.tz),
      GetVal(form, prefix + "City", defaults.city),
      GetVal(form, prefix + "Nation", defaults.nation))
  }

  /** With no date or time in the form, the partner's numbers are the ones
      read from the default date and time; `ReadDateOfDigits` and
      `ReadClockOfDigits` give them for digit-string defaults such as
      "1990-01-01" and "12:00". */
  lemma PartnerFromDefaults(form: Form, prefix: string, defaults: PartnerDefaults,
                              y: int, mo: int, d: int, h: int, mi: int)
    requires prefix + "Date" !in form && prefix + "Time" !in form
    requires ReadDate(defaults.date) == (Some(y), Some(mo), Some(d))
    requires ReadClock(defaults.time) == (Some(h), Some(mi))
    ensures var r := BuildRelationshipPartner(form, prefix, defaults);
      r.year == Parsed(y) && r.month == Parsed(mo) && r.day == Parsed(d) && r.hour == h && r.minute == mi
  {
    assert GetVal(form, prefix + "Date", defaults.date) == defaults.date;
    assert GetVal(form, prefix + "Time", defaults.time) == defaults.time;
  }

  lemma ReadDateOfDigits(a: string, b: string, c: string)
    requires |a| > 0 && |b| > 0 && |c| > 0 && AllDigits(a) && AllDigits(b) && AllDigits(c)
    ensures ReadDate(a + ['-'] + b + ['-'] + c) == (Some(DigitsValue(a)), Some(DigitsValue(b)), Some(DigitsValue(c)))
  {
    assert '-' !in a && '-' !in b && '-' !in c;
    SplitThree(a, b, c, '-');
    ParseIntDigits(a);
    ParseIntDigits(b);
    ParseIntDigits(c);
  }

  lemma ReadClockOfDigits(h: string, m: string)
    requires |h| > 0 && |m| > 0 && AllDigits(h) && AllDigits(m)
    ensures ReadClock(h + [':'] + m) == (Some(DigitsValue(h)), Some(DigitsValue(m)))
  {
    assert ':' !in h && ':' !in m;
    SplitTwo(h, m, ':');
    ParseIntDigits(h);
    ParseIntDigits(m);
  }

  /** A form date whose first part is not a number leaves the year as the
      default date's first part, as text and not as a number. */
  lemma PartnerUnreadableYear(form: Form, prefix: string, defaults: PartnerDefaults,
                              a: string, b: string, c: string)
    requires prefix + "Date" in form && form[prefix + "Date"] != ""
    requires ParseInt(Split(form[prefix + "Date"], '-')[0]).None?
    requires '-' !in a && '-' !in b && '-' !in c && defaults.date == a + ['-'] + b + ['-'] + c
    ensures BuildRelationshipPartner(form, prefix, defaults).year == Raw(a)
  {
    SplitThree(a, b, c, '-');
  }

  /** A coordinate field holding a digit string is kept when it is not 0 and
      replaced by the default when it is. */
  lemma CoordinateReads(form: Form, id: string, fallback: real)
    requires id in form && |form[id]| > 0 && AllDigits(form[id])
    ensures DigitsValue(form[id]) != 0 ==> Coordinate(form, id, fallback) == DigitsValue(form[id]) as real
    ensures DigitsValue(form[id]) == 0 ==> Coordinate(form, id, fallback) == fallback
  {
    ParseFloatDigits(form[id]);
  }

  // ---------------------------------------------------------------------------
  // buildPayloadFromForm
  // ---------------------------------------------------------------------------

  /** A payload member: absent from the object, `null`, or present. */
  datatype Slot<T> = Missing | Null | Present(value: T)

  /** A place and moment: date-time parts, coordinates and location names. */
  datatype Place = Place(parts: DateTimeParts, lat: real, lng: real, tz: string, city: string, nation: string)

  datatype Subject = Subject(name: string, place: Place)

  /** The request body. */
  datatype Payload = Payload(
    birth: Slot<Subject>, moment: Slot<Place>, first: Slot<Partner>, second: Slot<Partner>,
    config: Config.Settings)

  /** What `buildPayloadFromForm` returns: the body, the date parts it used
      (`None` for `null`) and the configuration. */
  datatype Request = Request(
    payload: Payload, birthDateParts: Option<DateTimeParts>, transitDateParts: Option<DateTimeParts>,
    config: Config.Settings)

  const BirthDefaults: DateTimeParts := DateTimeParts(1990, 1, 1, 12, 0)
  const TransitDefaults: DateTimeParts := DateTimeParts(2025, 1, 1, 12, 0)
  const DefaultLat: real := 52.3702
  const DefaultLng: real := 4.8952

  const FirstPartner: PartnerDefaults := PartnerDefaults(
    "Partner A", "1990-01-01", "12:00", 52.3702, 4.8952, "Europe/Amsterdam", "Amsterdam", "NL")
  const SecondPartner: PartnerDefaults := PartnerDefaults(
    "Partner B", "1992-02-02", "14:00", 40.7128, -74.006, "America/New_York", "New York", "US")

  /** `getValue(id) || fallback` as a relation: a non-empty field is used,
      an empty or missing one gives the fallback. */
  predicate FieldOr(form: Form, id: string, fallback: string, v: string) {
    (GetValue(form, id) != "" ==> v == GetValue(form, id)) && (GetValue(form, id) == "" ==> v == fallback)
  }

  /** `getValue(id) || fallback`. */
  function FieldValue(form: Form, id: string, fallback: string): (v: string)
    ensures FieldOr(form, id, fallback, v)
  {
    if GetValue(form, id) == "" then fallback else GetValue(form, id)
  }

  /** `toFloat(id, fallback)` as a relation: a field that reads as a number
      gives that number, any other field the fallback. */
  predicate NumberOr(form: Form, id: string, fallback: real, v: real) {
    (ParseFloat(GetValue(form, id)).Some? ==> v == ParseFloat(GetValue(form, id)).value)
    && (ParseFloat(GetValue(form, id)).None? ==> v == fallback)
  }

  /** The ids of the form fields a place is read from. */
  datatype PlaceIds = PlaceIds(date: string, time: string, lat: string, lng: string,
                               tz: string, city: string, nation: string)

  const BirthIds: PlaceIds := PlaceIds("dateInput", "timeInput", "lat", "lng", "tz_str", "city", "nation")
  const TransitIds: PlaceIds := PlaceIds("transitDateInput", "transitTimeInput", "transitLat", "transitLng",
                                         "transitTz", "transitCity", "transitNation")

  /** The coordinates of a place read from its fields, Amsterdam's as the
      fallbacks. */
  predicate CoordinatesFrom(form: Form, ids: PlaceIds, p: Place) {
    NumberOr(form, ids.lat, DefaultLat, p.lat) && NumberOr(form, ids.lng, DefaultLng, p.lng)
  }

  /** The zone and names of a place read from its fields, Amsterdam's as the
      fallbacks. */
  predicate NamesFrom(form: Form, ids: PlaceIds, p: Place) {
    FieldOr(form, ids.tz, "Europe/Amsterdam", p.tz) && FieldOr(form, ids.city, "Amsterdam", p.city)
    && FieldOr(form, ids.nation, "NL", p.nation)
  }

  /** The date-time parts, coordinates and location names of a place, read
      from its fields with the given date-time defaults. */
  function ReadPlace(form: Form, ids: PlaceIds, defaults: DateTimeParts): (p: Place)
    ensures p.parts == GetDateTimeParts(form, ids.date, ids.time, defaults)
    ensures CoordinatesFrom(form, ids, p)
    ensures NamesFrom(form, ids, p)
  {
    Place(
      GetDateTimeParts(form, ids.date, ids.time, defaults),
      ToFloat(form, ids.lat, DefaultLat), ToFloat(form, ids.lng, DefaultLng),
      FieldValue(form, ids.tz, "Europe/Amsterdam"),
      FieldValue(form, ids.city, "Amsterdam"),
      FieldValue(form, ids.nation, "NL"))
  }

  /** The `birth` object: the name field or "Subject", the birth date-time
      parts with 1990-01-01 12:00 as defaults, and the place fields. */
  function BirthSubject(form: Form): (r: Subject)
    ensures FieldOr(form, "name", "Subject", r.name)
    ensures r.place.parts == GetDateTimeParts(form, BirthIds.date, BirthIds.time, BirthDefaults)
    ensures CoordinatesFrom(form, BirthIds, r.place) && NamesFrom(form, BirthIds, r.place)
  {
    Subject(FieldValue(form, "name", "Subject"), ReadPlace(form, BirthIds, BirthDefaults))
  }

  /** The `moment` object: the transit date-time parts with 2025-01-01 12:00
      as defaults, and the transit place fields. */
  function Moment(form: Form): (r: Place)
    ensures r.parts == GetDateTimeParts(form, TransitIds.date, TransitIds.time, TransitDefaults)
    ensures CoordinatesFrom(form, TransitIds, r) && NamesFrom(form, TransitIds, r)
  {
    ReadPlace(form, TransitIds, TransitDefaults)
  }

  /** `normalizedConfig`: the sidereal mode becomes `null` unless the zodiac
      is "Sidereal"; everything else is kept. */
  function NormalizeConfig(cfg: Config.Settings): (r: Config.Settings)
    ensures Config.Consistent(r)
    ensures r.(siderealMode := cfg.siderealMode) == cfg
    ensures Config.Consistent(cfg) ==> r == cfg
  {
    cfg.(siderealMode := Config.SiderealFor(cfg.zodiacType, cfg.siderealMode))
  }

  /** The settings read from the form are already normalised, so normalising
      them again changes nothing. */
  lemma NormalizeFormConfig(inputs: Config.Inputs)
    ensures NormalizeConfig(Config.GetConfigFromInputs(inputs)) == Config.GetConfigFromInputs(inputs)
  {
    Config.GetConfigFromInputsConsistent(inputs);
  }

  /** The mode table of `buildPayloadFromForm`: "natal" sends the birth data,
      "transit" the moment, "natal_transit" both, "relationship" the two
      partners, and any other mode the moment with a `null` birth. */
  function Assemble(mode: string, birth: Subject, moment: Place, first: Partner, second: Partner,
                    cfg: Config.Settings): (r: Request)
    ensures r.payload.birth.Present? <==> mode == "natal" || mode == "natal_transit"
    ensures r.payload.moment.Present? <==> mode != "natal" && mode != "relationship"
    ensures r.payload.first.Present? <==> mode == "relationship"
    ensures r.payload.second.Present? <==> mode == "relationship"
    ensures r.payload.moment.Missing? <==> mode == "natal"
    ensures r.birthDateParts.Some? <==> mode != "transit" && mode != "relationship"
    ensures r.transitDateParts.Some? <==> mode != "natal" && mode != "relationship"
    ensures r.config == cfg && r.payload.config == cfg
    ensures r.payload.birth.Present? ==> r.payload.birth.value == birth
    ensures r.payload.moment.Present? ==> r.payload.moment.value == moment
    ensures r.payload.first.Present? ==> r.payload.first.value == first && r.payload.second.value == second
    ensures r.birthDateParts.Some? ==> r.birthDateParts.value == birth.place.parts
    ensures r.transitDateParts.Some? ==> r.transitDateParts.value == moment.parts
  {
    var birthParts := birth.place.parts;
    var transitParts := moment.parts;
    if mode == "natal" then
      Request(Payload(Present(birth), Missing, Missing, Missing, cfg), Some(birthParts), None, cfg)
    else if mode == "transit" then
      Request(Payload(Null, Present(moment), Missing, Missing, cfg), None, Some(transitParts), cfg)
    else if mode == "natal_transit" then
      Request(Payload(Present(birth), Present(moment), Missing, Missing, cfg), Some(birthParts), Some(transitParts), cfg)
    else if mode == "relationship" then
      Request(Payload(Null, Null, Present(first), Present(second), cfg), None, None, cfg)
    else
      Request(Payload(Null, Present(moment), Missing, Missing, cfg), Some(birthParts), Some(transitParts), cfg)
  }

  /** `buildPayloadFromForm(mode)`, with the settings inputs as a parameter:
      the birth subject, the moment and the partners read from the form and
      the normalised settings, arranged by the mode table. */
  function BuildPayloadFromForm(form: Form, mode: string, inputs: Config.Inputs): (r: Request)
    ensures r == Assemble(mode, BirthSubject(form), Moment(form),
      BuildRelationshipPartner(form, "first", FirstPartner),
      BuildRelationshipPartner(form, "second", SecondPartner),
      Config.GetConfigFromInputs(inputs))
    ensures Config.Consistent(r.config)
  {
    NormalizeFormConfig(inputs);
    Config.GetConfigFromInputsConsistent(inputs);
    Assemble(mode, BirthSubject(form), Moment(form),
      BuildRelationshipPartner(form, "first", FirstPartner),
      BuildRelationshipPartner(form, "second", SecondPartner),
      NormalizeConfig(Config.GetConfigFromInputs(inputs)))
  }

  /** With no date or time fields the birth moment is 1990-01-01 12:00 and
      the transit moment 2025-01-01 12:00; with no coordinate fields both
      places are Amsterdam's coordinates. */
  lemma EmptyFormDefaults(form: Form)
    requires "dateInput" !in form && "timeInput" !in form
    requires "transitDateInput" !in form && "transitTimeInput" !in form
    requires "lat" !in form && "lng" !in form && "transitLat" !in form && "transitLng" !in form
    ensures BirthSubject(form).place.parts == BirthDefaults
    ensures Moment(form).parts == TransitDefaults
    ensures BirthSubject(form).place.lat == DefaultLat && BirthSubject(form).place.lng == DefaultLng
    ensures Moment(form).lat == DefaultLat && Moment(form).lng == DefaultLng
  {
    BlankForm(form, "dateInput", "timeInput", BirthDefaults);
    BlankForm(form, "transitDateInput", "transitTimeInput", TransitDefaults);
    ToFloatReads(form, "lat", DefaultLat);
    ToFloatReads(form, "lng", DefaultLng);
    ToFloatReads(form, "transitLat", DefaultLat);
    ToFloatReads(form, "transitLng", DefaultLng);
  }

  /** Missing date and time fields give the defaults. */
  lemma BlankForm(form: Form, dateId: string, timeId: string, defaults: DateTimeParts)
    requires dateId !in form && timeId !in form
    ensures GetDateTimeParts(form, dateId, timeId, defaults) == defaults
  {
    assert Trim("") == "";
  }

  /** `buildRelationshipPayload()`: the two partners and the settings read
      from the form. */
  function BuildRelationshipPayload(form: Form, inputs: Config.Inputs): (r: (Partner, Partner, Config.Settings))
    ensures Config.Consistent(r.2)
  {
    Config.GetConfigFromInputsConsistent(inputs);
    (BuildRelationshipPartner(form, "first", FirstPartner),
     BuildRelationshipPartner(form, "second", SecondPartner),
     Config.GetConfigFromInputs(inputs))
  }

  /** The relationship payload and the "relationship" mode of the form payload
      send the same partners and the same settings. */
  lemma RelationshipPayloadsAgree(form: Form, inputs: Config.Inputs)
    ensures var req := BuildPayloadFromForm(form, "relationship", inputs);
      var (first, second, cfg) := BuildRelationshipPayload(form, inputs);
      req.payload.first == Present(first) && req.payload.second == Present(second) && req.config == cfg
  {
    NormalizeFormConfig(inputs);
  }
}
