/** The form-field normalisers of the browser client: the compact date-time
    badge and its reading back, the clamping time and date normalisers, the
    latitude/longitude text parser and the location record normaliser. The two
    front ends carry the same definitions of the date and time helpers. Inputs
    that JavaScript treats as `null` or `undefined` are `""` where the code
    writes `value || ""`, and `None` where it writes `??`. */
module FormText {
  import opened Wrappers
  import opened Text

  // ---------------------------------------------------------------------------
  // The date-time badge
  // ---------------------------------------------------------------------------

  const NoDate: string := "\U{2014}"
  const NoTime: string := "--:--"
  const Dot: char := '\U{B7}'

  /** The trimmed date, or the dash when nothing is left. */
  function DateLabel(s: string): (r: string)
    ensures Trimmed(r) && |r| > 0
    ensures Dot !in s ==> Dot !in r
  {
    var t := Trim(s);
    PlaceholdersClean();
    if t == "" then NoDate else t
  }

  /** The placeholders are non-blank, trimmed, and free of the dot. */
  lemma PlaceholdersClean()
    ensures Trimmed(NoDate) && |NoDate| > 0 && Dot !in NoDate
    ensures Trimmed(NoTime) && |NoTime| > 0 && Dot !in NoTime
  {
    assert NoTime[0] == '-' && NoTime[|NoTime| - 1] == '-';
    assert forall i :: 0 <= i < |NoTime| ==> NoTime[i] == '-' || NoTime[i] == ':';
  }

  /** The trimmed time, or "--:--" when nothing is left. */
  function TimeLabel(s: string): (r: string)
    ensures Trimmed(r) && |r| > 0
    ensures Dot !in s ==> Dot !in r
  {
    var t := Trim(s);
    PlaceholdersClean();
    if t == "" then NoTime else t
  }

  /** `formatCompactDatetime(dateStr, timeStr)`: "<date> · <time>", never
      blank on either side; `BadgeRoundTrip` reads it back. */
  function FormatCompactDatetime(date: string, time: string): (r: string)
    ensures |r| >= 5 && Trimmed(r)
  {
    var d := DateLabel(date);
    var t := TimeLabel(time);
    var r := d + " " + [Dot] + " " + t;
    assert r[0] == d[0] && r[|r| - 1] == t[|t| - 1];
    r
  }

  /** The date and time read from a badge; `None` is `null`. */
  datatype DisplayParts = DisplayParts(date: Option<string>, time: Option<string>)

  function NonEmpty(s: string): Option<string> {
    if s == "" then None else Some(s)
  }

  /** `parseFromDisplay(target)` on the badge text: split at "·", trim both
      sides, and `null` for a missing or empty side. */
  function ParseFromDisplay(text: string): (r: DisplayParts)
    ensures text == "" ==> r == DisplayParts(None, None)
    ensures r.date.Some? ==> Trimmed(r.date.value) && Dot !in r.date.value
    ensures r.time.Some? ==> Trimmed(r.time.value) && Dot !in r.time.value
  {
    if text == "" then DisplayParts(None, None)
    else
      var parts := Split(text, Dot);
      DisplayParts(NonEmpty(Trim(parts[0])), if |parts| > 1 then NonEmpty(Trim(parts[1])) else None)
  }

  lemma ParseFromDisplayOfParts(text: string, a: string, b: string)
    requires text != "" && Split(text, Dot) == [a, b]
    ensures ParseFromDisplay(text) == DisplayParts(NonEmpty(Trim(a)), NonEmpty(Trim(b)))
  {
  }

  /** Reading a badge back gives the trimmed date and time, or the placeholders
      for blank ones, provided neither contains the separator dot. */
  lemma BadgeRoundTrip(date: string, time: string)
    requires Dot !in date && Dot !in time
    ensures ParseFromDisplay(FormatCompactDatetime(date, time))
         == DisplayParts(Some(DateLabel(date)), Some(TimeLabel(time)))
  {
    var d := DateLabel(date);
    var t := TimeLabel(time);
    assert Dot !in d && Dot !in t;
    ReadBadge(FormatCompactDatetime(date, time), d, t);
  }

  lemma ReadBadge(text: string, d: string, t: string)
    requires text == d + " " + [Dot] + " " + t
    requires Trimmed(d) && |d| > 0 && Dot !in d
    requires Trimmed(t) && |t| > 0 && Dot !in t
    ensures ParseFromDisplay(text) == DisplayParts(Some(d), Some(t))
  {
    BadgeParts(d, t);
    ParseFromDisplayOfParts(text, d + " ", " " + t);
  }

  /** The badge splits at its dot into the padded sides. */
  lemma BadgeParts(d: string, t: string)
    requires Trimmed(d) && |d| > 0 && Dot !in d
    requires Trimmed(t) && |t| > 0 && Dot !in t
    ensures Split(d + " " + [Dot] + " " + t, Dot) == [d + " ", " " + t]
    ensures Trim(d + " ") == d && Trim(" " + t) == t
  {
    var a := d + " ";
    var b := " " + t;
    assert Dot !in a && Dot !in b;
    assert d + " " + [Dot] + " " + t == a + [Dot] + b;
    SplitTwo(a, b, Dot);
    TrimAroundSpace(d);
    TrimAroundSpace(t);
  }

  // ---------------------------------------------------------------------------
  // normalizeTimeString and normalizeDateString
  // ---------------------------------------------------------------------------

  /** The hour and minute as `parseInt` reads them from "H:M"; the minute is
      "0" when there is no colon. `None` when the text is blank or either part
      is not a number. */
  function TimeParts(value: string): Option<(int, int)> {
    var raw := Trim(value);
    if raw == "" then None
    else
      var parts := Split(raw, ':');
      var h := ParseInt(parts[0]);
      var m := ParseInt(if |parts| > 1 then parts[1] else "0");
      if h.Some? && m.Some? then Some((h.value, m.value)) else None
  }

  /** "HH:MM" with two-digit fields. */
  predicate IsClockText(s: string) {
    |s| == 5 && s[2] == ':' && AllDigits(s[..2]) && AllDigits(s[3..])
  }

  function ClockText(h: int, m: int): (s: string)
    requires 0 <= h <= 23 && 0 <= m <= 59
    ensures IsClockText(s)
    ensures s[..2] == Pad(h) && s[3..] == Pad(m)
  {
    var s := Pad(h) + [':'] + Pad(m);
    assert s[..2] == Pad(h) && s[3..] == Pad(m);
    s
  }

  /** `normalizeTimeString(value, fallback)`: the fallback for blank or
      unreadable text, otherwise "HH:MM" holding the hour clamped to 0..23 and
      the minute clamped to 0..59. */
  function NormalizeTimeString(value: string, fallback: string): (r: string)
    ensures TimeParts(value).None? ==> r == fallback
    ensures TimeParts(value).Some? ==> IsClockText(r)
    ensures TimeParts(value).Some? ==> ParseInt(r[..2]) == Some(Clamp(TimeParts(value).value.0, 0, 23))
    ensures TimeParts(value).Some? ==> ParseInt(r[3..]) == Some(Clamp(TimeParts(value).value.1, 0, 59))
  {
    match TimeParts(value)
    case None => fallback
    case Some((h, m)) =>
      var hh := Clamp(h, 0, 23);
      var mm := Clamp(m, 0, 59);
      ParseIntOfPad(hh);
      ParseIntOfPad(mm);
      ClockText(hh, mm)
  }

  /** `TimeParts` of trimmed "h:m" text. */
  lemma TimePartsOf(s: string, h: string, m: string)
    requires s != "" && Trim(s) == s && Split(s, ':') == [h, m]
    ensures ParseInt(h).Some? && ParseInt(m).Some? ==> TimeParts(s) == Some((ParseInt(h).value, ParseInt(m).value))
  {
  }

  /** A clock text reads back as its two numbers. */
  lemma ClockTextReads(h: int, m: int)
    requires 0 <= h <= 23 && 0 <= m <= 59
    ensures TimeParts(ClockText(h, m)) == Some((h, m))
  {
    var r := ClockText(h, m);
    assert r == Pad(h) + [':'] + Pad(m);
    assert Trim(r) == r by {
      assert !IsSpace(r[0]) && !IsSpace(r[4]);
    }
    assert ':' !in Pad(h) && ':' !in Pad(m);
    SplitTwo(Pad(h), Pad(m), ':');
    ParseIntOfPad(h);
    ParseIntOfPad(m);
    TimePartsOf(r, Pad(h), Pad(m));
  }

  /** Normalising a normalised time changes nothing. */
  lemma NormalizeTimeStringIdempotent(value: string, fallback: string, other: string)
    requires TimeParts(value).Some?
    ensures NormalizeTimeString(NormalizeTimeString(value, fallback), other) == NormalizeTimeString(value, fallback)
  {
    var (h, m) := TimeParts(value).value;
    ClockTextReads(Clamp(h, 0, 23), Clamp(m, 0, 59));
  }

  /** Out-of-range numbers are clamped, not rejected: "25:75" and every
      other hour past 23 with a minute past 59 become "23:59". */
  lemma TimeClamps(h: nat, m: nat, fallback: string)
    requires h > 23 && m > 59
    ensures TimeParts(NatToString(h) + [':'] + NatToString(m)) == Some((h, m))
    ensures NormalizeTimeString(NatToString(h) + [':'] + NatToString(m), fallback) == ClockText(23, 59)
  {
    var a := NatToString(h);
    var b := NatToString(m);
    assert ':' !in a && ':' !in b;
    assert !IsSpace(a[0]) && !IsSpace(b[|b| - 1]);
    TrimmedConcat(a, [':'], b);
    SplitTwo(a, b, ':');
    ParseIntDigits(a);
    ParseIntDigits(b);
    TimePartsOf(a + [':'] + b, a, b);
  }

  /** The year, month and day as `parseInt` reads the first three "-"-separated
      parts; `None` when one of them is missing or not a number. */
  function DateParts(value: string): Option<(int, int, int)> {
    var parts := Split(Trim(value), '-');
    var y := ParseInt(parts[0]);
    var m := if |parts| > 1 then ParseInt(parts[1]) else None;
    var d := if |parts| > 2 then ParseInt(parts[2]) else None;
    if y.Some? && m.Some? && d.Some? then Some((y.value, m.value, d.value)) else None
  }

  /** A part without a minus sign reads as a non-negative number. */
  lemma ParseIntNoMinus(s: string)
    requires '-' !in s
    ensures ParseInt(s).Some? ==> ParseInt(s).value >= 0
  {
    var t := TrimStart(s);
    if |t| > 0 {
      assert t[0] == s[|s| - |t|];
    }
  }

  lemma DatePartsNonNegative(value: string)
    requires DateParts(value).Some?
    ensures DateParts(value).value.0 >= 0 && DateParts(value).value.1 >= 0 && DateParts(value).value.2 >= 0
  {
    var parts := Split(Trim(value), '-');
    ParseIntNoMinus(parts[0]);
    ParseIntNoMinus(parts[1]);
    ParseIntNoMinus(parts[2]);
  }

  /** `normalizeDateString(value, fallback)`: "y-m-d" with each field padded to
      two digits when all three parts read as numbers, the fallback otherwise;
      no calendar range check. The result reads back as the same numbers. */
  function NormalizeDateString(value: string, fallback: string): (r: string)
    ensures DateParts(value).None? ==> r == fallback
    ensures DateParts(value).Some? ==> DateParts(r) == DateParts(value)
    ensures DateParts(value).Some? ==>
              r == DateText(DateParts(value).value.0, DateParts(value).value.1, DateParts(value).value.2)
  {
    match DateParts(value)
    case None => fallback
    case Some((y, m, d)) =>
      DatePartsNonNegative(value);
      DateTextReads(y, m, d);
      DateText(y, m, d)
  }

  /** "y-m-d" with each field padded to two digits. */
  function DateText(y: int, m: int, d: int): string {
    Pad(y) + ['-'] + Pad(m) + ['-'] + Pad(d)
  }

  /** `DateParts` of trimmed "y-m-d" text. */
  lemma DatePartsOf(s: string, y: string, m: string, d: string)
    requires Trim(s) == s && Split(s, '-') == [y, m, d]
    ensures ParseInt(y).Some? && ParseInt(m).Some? && ParseInt(d).Some? ==>
      DateParts(s) == Some((ParseInt(y).value, ParseInt(m).value, ParseInt(d).value))
  {
  }

  lemma DateTextReads(y: nat, m: nat, d: nat)
    ensures DateParts(DateText(y, m, d)) == Some((y, m, d))
  {
    var a, b, c := Pad(y), Pad(m), Pad(d);
    PadPlain(y);
    PadPlain(m);
    PadPlain(d);
    DashedText(a, b, c);
    ParseIntOfPad(y);
    ParseIntOfPad(m);
    ParseIntOfPad(d);
    DatePartsOf(DateText(y, m, d), a, b, c);
  }

  /** Normalising a normalised date changes nothing. */
  lemma NormalizeDateStringIdempotent(value: string, fallback: string, other: string)
    requires DateParts(value).Some?
    ensures NormalizeDateString(NormalizeDateString(value, fallback), other) == NormalizeDateString(value, fallback)
  {
  }

  /** There is no range check: month 13 and day 45 pass through unchanged,
      as does any other field value. */
  lemma DateNoRangeCheck(y: nat, m: nat, d: nat, fallback: string)
    ensures NormalizeDateString(DateText(y, m, d), fallback) == DateText(y, m, d)
  {
    DateTextReads(y, m, d);
  }

  // ---------------------------------------------------------------------------
  // parseLatLngText
  // ---------------------------------------------------------------------------

  /** `parseLatLngText(raw)`: the first two comma- or whitespace-separated
      tokens as numbers, or `None` (`null`) when there are fewer than two or
      either does not read as a number. */
  function ParseLatLngText(raw: string): (r: Option<(real, real)>)
    ensures r.Some? ==> |Tokens(Trim(raw))| >= 2
    ensures r.Some? ==> Some(r.value.0) == ParseFloat(Tokens(Trim(raw))[0])
    ensures r.Some? ==> Some(r.value.1) == ParseFloat(Tokens(Trim(raw))[1])
    ensures |Tokens(Trim(raw))| < 2 ==> r.None?
    ensures |Tokens(Trim(raw))| >= 2 && ParseFloat(Tokens(Trim(raw))[0]).Some? && ParseFloat(Tokens(Trim(raw))[1]).Some? ==>
              r == Some((ParseFloat(Tokens(Trim(raw))[0]).value, ParseFloat(Tokens(Trim(raw))[1]).value))
  {
    var text := Trim(raw);
    if text == "" then None
    else
      var parts := Tokens(text);
      if |parts| < 2 then None
      else
        var lat := ParseFloat(parts[0]);
        var lng := ParseFloat(parts[1]);
        if lat.Some? && lng.Some? then Some((lat.value, lng.value)) else None
  }

  /** "lat, lng" written from two numerals reads back as those numbers. */
  lemma LatLngRoundTrip(a: string, b: string)
    requires |a| > 0 && |b| > 0 && NoListSep(a) && NoListSep(b)
    requires ParseFloat(a).Some? && ParseFloat(b).Some?
    ensures ParseLatLngText(a + ", " + b) == Some((ParseFloat(a).value, ParseFloat(b).value))
  {
    PairText(a, b);
    ParseLatLngTextOf(a + ", " + b, a, b);
  }

  /** "a, b" is already trimmed and splits into the two words. */
  lemma PairText(a: string, b: string)
    requires |a| > 0 && |b| > 0 && NoListSep(a) && NoListSep(b)
    ensures Trim(a + ", " + b) == a + ", " + b && a + ", " + b != ""
    ensures Tokens(a + ", " + b) == [a, b]
  {
    TrimPair(a, b);
    TokensOfPair(a, b);
  }

  lemma TrimPair(a: string, b: string)
    requires |a| > 0 && |b| > 0 && NoListSep(a) && NoListSep(b)
    ensures Trim(a + ", " + b) == a + ", " + b
  {
    var s := a + ", " + b;
    assert s[0] == a[0] && s[|s| - 1] == b[|b| - 1];
    assert !IsListSep(a[0]) && !IsListSep(b[|b| - 1]);
    assert Trimmed(s);
  }

  lemma ParseLatLngTextOf(s: string, a: string, b: string)
    requires Trim(s) == s && s != "" && Tokens(s) == [a, b]
    requires ParseFloat(a).Some? && ParseFloat(b).Some?
    ensures ParseLatLngText(s) == Some((ParseFloat(a).value, ParseFloat(b).value))
  {
  }

  // ---------------------------------------------------------------------------
  // normalizeLocationValues
  // ---------------------------------------------------------------------------

  /** A location record as the client passes it around; `None` for a field
      that is `null` or missing. */
  datatype Location = Location(
    city: Option<string>, nation: Option<string>, nationName: Option<string>,
    tz: Option<string>, tzStr: Option<string>, lat: Option<string>, lng: Option<string>)

  /** The normalised record: every field a string. */
  datatype CleanLocation = CleanLocation(
    city: string, nation: string, nationName: string, tz: string, tzStr: string, lat: string, lng: string)

  /** `a ?? b`. */
  function Coalesce(a: Option<string>, b: Option<string>): Option<string> {
    if a.Some? then a else b
  }

  /** `clean(val)`: "" for null, otherwise the trimmed text. */
  function Clean(v: Option<string>): (r: string)
    ensures Trimmed(r)
  {
    match v
    case None => ""
    case Some(s) => Trim(s)
  }

  /** `table[key]`, `None` for `undefined`. */
  function Lookup(table: map<string, string>, key: string): Option<string> {
    if key in table then Some(table[key]) else None
  }

  /** `a || b` on strings. */
  function Or(a: string, b: string): string {
    if a != "" then a else b
  }

  /** `rawCode`: the record's nation code, else the default's, trimmed. */
  function RawCode(values: Location, defaults: Location): (r: string)
    ensures Trimmed(r)
  {
    Clean(Coalesce(values.nation, defaults.nation))
  }

  /** `rawName`: the record's country name, else the default's, else the
      name the code table gives the raw code, else the raw code, trimmed. */
  function RawName(values: Location, defaults: Location, codes: map<string, string>): (r: string)
    ensures Trimmed(r)
  {
    var rawCode := RawCode(values, defaults);
    Clean(Coalesce(values.nationName, Coalesce(defaults.nationName,
      Coalesce(Lookup(codes, rawCode), Some(rawCode)))))
  }

  /** `resolvedCode`: the raw code, else the code the names table gives the
      lower-cased raw name, else a two-letter raw name upper-cased, else "". */
  function ResolvedCode(values: Location, defaults: Location, codes: map<string, string>, names: map<string, string>)
    : string
  {
    var rawName := RawName(values, defaults, codes);
    Or(RawCode(values, defaults), Or(Lookup(names, Lower(rawName)).GetOr(""),
      if |rawName| == 2 then Upper(rawName) else ""))
  }

  /** `normalizeLocationValues(targetKey, values)` with the target's defaults,
      the code-to-name table `codes` (`COUNTRY_CODES`) and the lower-cased
      name-to-code table `names` (`COUNTRY_NAMES`). The zone is copied into
      both `tz` and `tz_str`; the nation code is upper-cased; the text fields
      are trimmed. A blank code is looked up by the country name, and a
      two-letter name that the table does not know is taken as the code. */
  function NormalizeLocationValues(values: Location, defaults: Location, codes: map<string, string>, names: map<string, string>)
    : (r: CleanLocation)
    ensures r.tz == r.tzStr
    ensures NoLowerCase(r.nation) && Upper(r.nation) == r.nation
    ensures Trimmed(r.city) && Trimmed(r.tz) && Trimmed(r.lat) && Trimmed(r.lng)
    ensures r.city == Clean(Coalesce(values.city, defaults.city))
    ensures r.tz == Clean(Coalesce(values.tzStr, Coalesce(values.tz, defaults.tz)))
    ensures r.lat == Clean(Coalesce(values.lat, defaults.lat))
    ensures r.lng == Clean(Coalesce(values.lng, defaults.lng))
    // the nation code
    ensures RawCode(values, defaults) != "" ==> r.nation == Upper(RawCode(values, defaults))
    ensures RawCode(values, defaults) == "" && Lookup(names, Lower(RawName(values, defaults, codes))).GetOr("") != "" ==>
              r.nation == Upper(names[Lower(RawName(values, defaults, codes))])
    ensures RawCode(values, defaults) == "" && Lookup(names, Lower(RawName(values, defaults, codes))).GetOr("") == "" ==>
              r.nation == (if |RawName(values, defaults, codes)| == 2 then Upper(RawName(values, defaults, codes)) else "")
    // the country name
    ensures RawCode(values, defaults) != "" && Lookup(codes, RawCode(values, defaults)).GetOr("") != "" ==>
              r.nationName == codes[RawCode(values, defaults)]
    ensures RawCode(values, defaults) != "" && Lookup(codes, RawCode(values, defaults)).GetOr("") == "" ==>
              r.nationName == Or(RawName(values, defaults, codes), RawCode(values, defaults))
    ensures r.nation == Upper(ResolvedCode(values, defaults, codes, names))
    // the country name, for every raw code, blank ones included
    ensures r.nationName == Or(Lookup(codes, ResolvedCode(values, defaults, codes, names)).GetOr(""),
                               Or(RawName(values, defaults, codes), ResolvedCode(values, defaults, codes, names)))
    ensures RawName(values, defaults, codes) != "" || r.nation != "" ==> r.nationName != ""
  {
    var baseTz := Coalesce(values.tzStr, Coalesce(values.tz, defaults.tz));
    var rawName := RawName(values, defaults, codes);
    var resolvedCode := ResolvedCode(values, defaults, codes, names);
    var resolvedName := Or(Lookup(codes, resolvedCode).GetOr(""), Or(rawName, resolvedCode));
    UpperIdempotent(resolvedCode);
    UpperIdempotent(rawName);
    CleanLocation(
      Clean(Coalesce(values.city, defaults.city)),
      Upper(resolvedCode),
      resolvedName,
      Clean(baseTz),
      Clean(baseTz),
      Clean(Coalesce(values.lat, defaults.lat)),
      Clean(Coalesce(values.lng, defaults.lng)))
  }

  lemma UpperIdempotent(s: string)
    ensures Upper(Upper(s)) == Upper(s)
    ensures NoLowerCase(Upper(s))
  {
  }

  /** Upper-casing leaves text without lower-case letters as it is, and keeps
      trimmed text trimmed. */
  lemma UpperKeeps(s: string)
    ensures NoLowerCase(s) ==> Upper(s) == s
    ensures Trimmed(s) ==> Trimmed(Upper(s))
  {
    if NoLowerCase(s) {
      assert forall i :: 0 <= i < |s| ==> Upper(s)[i] == s[i];
    }
  }

  /** The normalised record read back as a record of present fields. */
  function AsLocation(c: CleanLocation): Location {
    Location(Some(c.city), Some(c.nation), Some(c.nationName), Some(c.tz), Some(c.tzStr), Some(c.lat), Some(c.lng))
  }

  /** Normalising a normalised record again changes nothing, provided the
      tables have no entry for the blank code, the names table gives trimmed
      upper-case codes, and the record's own code has no lower-case letter.
      The last condition is needed: a raw code "us" that the codes table does
      not know keeps the name "us" on the first pass, but its upper-cased
      form "US" finds the table's name on the second. */
  lemma NormalizeLocationValuesIdempotent(values: Location, defaults: Location, codes: map<string, string>,
                                          names: map<string, string>)
    requires "" !in codes
    requires forall k :: k in names ==> Trimmed(names[k]) && NoLowerCase(names[k])
    requires NoLowerCase(RawCode(values, defaults))
    ensures var r := NormalizeLocationValues(values, defaults, codes, names);
            NormalizeLocationValues(AsLocation(r), defaults, codes, names) == r
  {
    var r := NormalizeLocationValues(values, defaults, codes, names);
    var v := AsLocation(r);
    var rc := ResolvedCode(values, defaults, codes, names);
    ReadBackCode(values, defaults, codes, names);
    OrNameStable(Lookup(codes, rc).GetOr(""), RawName(values, defaults, codes), rc);
    var r2 := NormalizeLocationValues(v, defaults, codes, names);
    assert r2.nation == r.nation;
    assert r2.nationName == r.nationName;
  }

  /** Read back, the normalised record gives the same raw code and resolved
      code, and its own name, trimmed, as the raw name. */
  lemma ReadBackCode(values: Location, defaults: Location, codes: map<string, string>, names: map<string, string>)
    requires "" !in codes
    requires forall k :: k in names ==> Trimmed(names[k]) && NoLowerCase(names[k])
    requires NoLowerCase(RawCode(values, defaults))
    ensures var r := NormalizeLocationValues(values, defaults, codes, names);
            var rc := ResolvedCode(values, defaults, codes, names);
            r.nation == rc && RawCode(AsLocation(r), defaults) == rc &&
            RawName(AsLocation(r), defaults, codes) == Trim(r.nationName) &&
            ResolvedCode(AsLocation(r), defaults, codes, names) == rc
  {
    var r := NormalizeLocationValues(values, defaults, codes, names);
    var v := AsLocation(r);
    var rc := ResolvedCode(values, defaults, codes, names);
    ResolvedCodeShape(values, defaults, codes, names);
    UpperKeeps(rc);
    assert r.nation == rc;
    assert RawCode(v, defaults) == rc;
    if rc == "" {
      assert Lookup(codes, rc).GetOr("") == "";
      assert RawName(v, defaults, codes) == RawName(values, defaults, codes);
    }
  }

  /** The resolved code is trimmed and upper-case when the raw code and the
      names table's codes are. */
  lemma ResolvedCodeShape(values: Location, defaults: Location, codes: map<string, string>, names: map<string, string>)
    requires forall k :: k in names ==> Trimmed(names[k]) && NoLowerCase(names[k])
    requires NoLowerCase(RawCode(values, defaults))
    ensures Trimmed(ResolvedCode(values, defaults, codes, names))
    ensures NoLowerCase(ResolvedCode(values, defaults, codes, names))
  {
    var rawName := RawName(values, defaults, codes);
    UpperKeeps(rawName);
    UpperIdempotent(rawName);
  }

  /** The name chain `found || rawName || code` gives the same name when the
      trimmed name it gave is fed back as the raw name. */
  lemma OrNameStable(found: string, rawName: string, code: string)
    requires Trimmed(rawName) && Trimmed(code)
    ensures var n := Or(found, Or(rawName, code));
            Or(found, Or(Trim(n), code)) == n
  {
  }


  /** A two-letter name that is no known country is taken as a code: a
      record with only "nl" as its country name gets nation "NL". */
  lemma TwoLetterNameIsCode(name: string, codes: map<string, string>, names: map<string, string>)
    requires |name| == 2 && Trimmed(name) && Lower(name) !in names
    ensures NormalizeLocationValues(
      Location(None, None, Some(name), None, None, None, None),
      Location(None, None, None, None, None, None, None), codes, names).nation == Upper(name)
  {
    UpperIdempotent(name);
  }

}
