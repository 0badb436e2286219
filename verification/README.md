# Ptolemaic aspects and the astro front ends, in Dafny

This project models the core of an astrology service. It has three parts.

- **The server's Ptolemaic engine** (`aspects/ptolemaic.py`). It measures the
  angle between two ecliptic longitudes and classifies it against the
  five-row aspect table: conjunction, sextile, square, trine and opposition.
  From the points of a chart it builds the aspect rows and the pair map. On
  the pair map it runs seven pattern matchers: stellium, T-square, grand
  trine, grand cross, grand sextile, mystic rectangle and trapeze.
- **Calendar stepping** (`utils.py`). This covers `add_months` with day
  clamping and the inclusive range walk `iter_range_datetimes`.
- **The browser clients.** These are:
  - the client copies of the aspect arithmetic and their key-aspect,
    transit-to-natal and relationship tables;
  - the ordinal and house labels;
  - the form-field normalisers;
  - the advanced view's aspect rows, matrix and pattern grouping;
  - the home page's settings and request payloads.

Numbers are exact `real`s, and strings are `seq<char>`. A Python dict or
JavaScript object whose key order matters is a `Tables.Table`: an
insertion-ordered key list together with a map. `null`/`undefined` are
`Option`s. A DOM read becomes a parameter: a form is a map from element id
to value, and storage is a record of optional settings. `parseInt` and
`parseFloat` are modelled by `Text.ParseInt` and `Text.ParseFloat`.

Modules, in dependency order:

- `Wrappers`, `Text`, `Sorting`, `Tables` and `Combinations` are generic
  helpers. They cover trimming, splitting and number parsing, stable
  insertion sort by a real key, ordered tables, and k-combinations.
- `Aspects` models the engine's table, angular difference, classification,
  point extraction, key resolution, pair map and `compute`.
- `Patterns`, `Stelliums`, `Matchers` and `PatternSearch` model the pattern
  catalogue, the seven matchers and `compute_patterns`.
- `Calendar` models `add_months` and `iter_range_datetimes`.
- `Labels` models the client's aspect table and icons, `emojiNumber`,
  `toOrdinalWithSuffix`, the house labels and `capitalise`.
- `FormText` models `pad`, `formatCompactDatetime`, `parseFromDisplay`,
  `normalizeTimeString`, `normalizeDateString`, `parseLatLngText` and
  `normalizeLocationValues`.
- `ClientRender` models the aspect code of the two `render.js` files.
- `AdvancedView` models the adapters of `advanced/main.js`.
- `Config` models `DEFAULT_CONFIG`, `getConfigFromInputs` and `loadConfig`.
- `Payloads` models `payloads.js`.

The home page's copies of the shared helpers have the same text as the
shared ones. Each helper is therefore modelled once. Its row below cites
the shared copy in the source column and names the home copy in its text.

## Model

| member | source | states |
|---|---|---|
| Aspects.CalculatorAspects | aspects/ptolemaic.py:164-165 | an empty custom table falls back to the five Ptolemaic aspects; a non-empty one is used as given |
| Aspects.Mod360 | aspects/ptolemaic.py:196-198 | the float remainder by 360 lies in [0, 360) and leaves a value already in range unchanged |
| Aspects.AngularDiff | aspects/ptolemaic.py:196-198 | the separation lies in [0, 180]; it is 0 for equal longitudes, \|a-b\| up to 180, and 360-\|a-b\| between 180 and 360 |
| Aspects.AngularDiffSymmetric | aspects/ptolemaic.py:196-198 | the separation does not depend on the order of the two longitudes |
| Aspects.AngularDiffIsCircularDistance | aspects/ptolemaic.py:196-198 | the separation is the shortest distance between the two longitudes over all whole turns, and it is reached by one of them |
| Aspects.FirstWithin | aspects/ptolemaic.py:200-205 | returns the first row of the table, in declared order, whose window contains the separation, or none exactly when no row does |
| Aspects.Classify | aspects/ptolemaic.py:200-205 | none exactly when no window contains the separation; otherwise a table row whose window contains it, with orb \|diff-angle\| within that row's orb (which row: Aspects.ClassifyFirst) |
| Aspects.ClassifyFirst | aspects/ptolemaic.py:201-204 | the row chosen is the FIRST in table order whose window contains the separation: no earlier row admits it |
| Aspects.DefaultWindowsDisjoint | aspects/ptolemaic.py:76-82 | no separation lies in two windows of the default table |
| Aspects.ClassifyDefault | aspects/ptolemaic.py:200-205 | with the default table, any row whose window contains the separation is the one returned (the default table is at aspects/ptolemaic.py:76-82) |
| Aspects.OppositionBoundary | aspects/ptolemaic.py:200-205 | 174 is an opposition with orb 6, 174.01 one with orb 5.99, and 173.99 is no aspect: the window bound is inclusive (the default table is at aspects/ptolemaic.py:76-82) |
| Aspects.RoundHalfEven | aspects/ptolemaic.py:220 | the nearest integer, within half a unit; an exact half goes to the even neighbour, as Python's `round` does (also at aspects/ptolemaic.py:263) |
| Aspects.Round2 | aspects/ptolemaic.py:220 | `round(orb, 2)` is a whole number of hundredths, within half a hundredth of the orb, and keeps a non-negative orb non-negative (also at aspects/ptolemaic.py:263) |
| Aspects.Round2Hundredths | aspects/ptolemaic.py:220 | rounding leaves a whole number of hundredths unchanged (also at aspects/ptolemaic.py:263) |
| Aspects.Round2Idempotent | aspects/ptolemaic.py:220 | rounding twice is rounding once (also at aspects/ptolemaic.py:263) |
| Aspects.NormalizeKey | aspects/ptolemaic.py:168-169 | the normalised key has the same length and no space, hyphen or upper-case letter (character by character: Aspects.NormalizeKeyChars) |
| Aspects.NormalizeKeyChars | aspects/ptolemaic.py:168-169 | each character is mapped on its own: a space or hyphen becomes "_" and every other character is lower-cased |
| Aspects.NormalizeKeyFixes | aspects/ptolemaic.py:168-169 | a key is unchanged by normalisation exactly when it is already normal |
| Aspects.NormalizeKeyIdempotent | aspects/ptolemaic.py:168-169 | normalising twice is normalising once |
| Aspects.PointPosition | aspects/ptolemaic.py:173-179 | only a dict entry whose `abs_pos` converts to a float gives a position, and a numeric `abs_pos` gives itself |
| Aspects.ExtractFrom | aspects/ptolemaic.py:171-183 | the extracted table's names are exactly the normalised names of the usable entries |
| Aspects.ExtractPoints | aspects/ptolemaic.py:171-183 | every extracted name is a normalised key |
| Aspects.ExtractPointsContents | aspects/ptolemaic.py:171-183 | the extracted names are those of the usable entries, and a name holds the position of the last usable entry that normalises to it |
| Aspects.ActiveFrom | aspects/ptolemaic.py:240 | explicit active points win over the subject's own `active_points` |
| Aspects.SelectActive | aspects/ptolemaic.py:186-190 | the selected keys are distinct and are exactly the normalised active names that are points, in the order of their first occurrence in the active list: duplicates and non-points are dropped, nothing is reordered |
| Aspects.ResolveKeys | aspects/ptolemaic.py:185-194 | the resolved keys are distinct points: when some active name is a point, the normalised active points in first-occurrence order; otherwise all point names in sorted order |
| Aspects.ResolveKeysNormal | aspects/ptolemaic.py:185-194 | distinct, already normal, existing active keys resolve to themselves in their given order |
| Aspects.Canon | aspects/ptolemaic.py:216 | the canonical pair holds the same two keys in lexicographic order (also at aspects/ptolemaic.py:290) |
| Aspects.CanonSymmetric | aspects/ptolemaic.py:216 | the canonical pair of (a, b) is that of (b, a) (also at aspects/ptolemaic.py:290) |
| Aspects.PairClass | aspects/ptolemaic.py:207-226 | a pair has an aspect exactly when its separation classifies, and it carries that separation and a table row containing it |
| Aspects.PairClassSymmetric | aspects/ptolemaic.py:207-226 | a pair's aspect does not depend on the order of its keys |
| Aspects.PairAspects | aspects/ptolemaic.py:207-226 | every entry of the pair map is a canonical pair of resolved keys, holding that pair's classification |
| Aspects.PairLookup | aspects/ptolemaic.py:207-226 | two distinct resolved keys have a pair-map entry exactly when they form an aspect, and the entry is that aspect |
| Aspects.RowOf | aspects/ptolemaic.py:251-279 | a row exists exactly when the pair classifies, and it carries the base key, other key, orb and aspect name |
| Aspects.RowsWith | aspects/ptolemaic.py:249-279 | the rows for one base key pair it only with later keys, each row being that pair's row; they are distinct for distinct keys |
| Aspects.RowsFrom | aspects/ptolemaic.py:242-279 | every row pairs an earlier resolved key with a later one and is that pair's row |
| Aspects.Compute | aspects/ptolemaic.py:238-285 | the aspect rows are sorted ascending by orb |
| Aspects.SelectedKeys | aspects/ptolemaic.py:239-240 | the keys `compute` pairs are distinct extracted points |
| Aspects.ComputeSound | aspects/ptolemaic.py:238-285 | every row joins a key to a later key in resolved order, and is that pair's classification |
| Aspects.ComputeComplete | aspects/ptolemaic.py:238-285 | every pair of resolved keys whose separation classifies appears as a row |
| Aspects.ComputeOnePerPair | aspects/ptolemaic.py:249-279 | no two rows join the same two keys |
| Aspects.ComputeStable | aspects/ptolemaic.py:284 | rows with equal orbs keep their generation order: the sort is stable |
| Sorting.SortBy | aspects/ptolemaic.py:284 | `list.sort(key=…)` gives a permutation of the rows in ascending key order |
| Sorting.SortByStable | aspects/ptolemaic.py:284 | the rows with any one key value keep their relative order |
| Patterns.CatalogueSize | aspects/ptolemaic.py:85-156 | the pattern catalogue has seven configurations |
| Patterns.KindsMatchCatalogue | aspects/ptolemaic.py:85-156 | each pattern shape uses exactly the aspect kinds its catalogue entry lists |
| Patterns.HasSymmetric | aspects/ptolemaic.py:207-226 | looking up a pair's aspect does not depend on the order of its keys |
| Patterns.MakeLink | aspects/ptolemaic.py:287-293 | a link carries the pair map's kind, orb and difference for the canonical pair |
| Patterns.Links | aspects/ptolemaic.py:287-293 | the links of a list of edges are one per edge, each agreeing with the pair map |
| Patterns.LinksFit | aspects/ptolemaic.py:287-293 | links built from edges inside a point set stay inside it, with the allowed kinds |
| Patterns.WellFormedFromEdges | aspects/ptolemaic.py:287-293 | a pattern whose links come from holding edges over its own points is well formed |
| Patterns.Scan | aspects/ptolemaic.py:334-361 | the `seen` scan never reports a key set twice or one seen before, and reports only matcher results |
| Patterns.ScanComplete | aspects/ptolemaic.py:334-361 | every matcher result on a combination is reported, or its key set was seen before |
| Patterns.ComboOfKeys | aspects/ptolemaic.py:334 | a k-combination of distinct keys holds k distinct keys (also at aspects/ptolemaic.py:370 and 398) |
| Patterns.SortedSetSize | aspects/ptolemaic.py:310 | sorting distinct keys keeps their number |
| Combinations.Combos | aspects/ptolemaic.py:334 | `itertools.combinations` gives C(n, k) index-ordered subsequences of length k (also at aspects/ptolemaic.py:370 and 398) |
| Combinations.CombosComplete | aspects/ptolemaic.py:334 | every length-k subsequence is among the combinations (also at aspects/ptolemaic.py:370 and 398) |
| Stelliums.Ordered | aspects/ptolemaic.py:297-299 | the points sorted by longitude: same count, ascending, each with its longitude |
| Stelliums.Extended | aspects/ptolemaic.py:300 | the wrapped list repeats the points with 360 added |
| Stelliums.ExtendedSorted | aspects/ptolemaic.py:297-300 | the wrapped list is ascending by longitude |
| Stelliums.Advance | aspects/ptolemaic.py:304-306 | the window start moves to the first point within 30 of the window end |
| Stelliums.ConjunctionLinks | aspects/ptolemaic.py:314-316 | the links are exactly the conjunctions of the pair map among the window's pairs |
| Stelliums.ConjunctionLinksComplete | aspects/ptolemaic.py:314-316 | every window pair in conjunction gets its link |
| Stelliums.StelliumAt | aspects/ptolemaic.py:307-324 | a window gives a stellium exactly when it holds at least three distinct keys, with those keys sorted and its conjunction links |
| Stelliums.StelliumAtWellFormed | aspects/ptolemaic.py:307-324 | a window's stellium is well formed |
| Stelliums.Sweep | aspects/ptolemaic.py:302-325 | the sweep reports each key set once, and each from a window spanning at most 30 |
| Stelliums.FromWindowStellium | aspects/ptolemaic.py:302-325 | a stellium found in a window has at least three sorted distinct resolved keys and is well formed |
| Stelliums.StelliumMatches | aspects/ptolemaic.py:295-326 | every stellium is one of resolved keys, and no key set is reported twice |
| Stelliums.WindowClose | aspects/ptolemaic.py:302-306 | any two points of a window are at most 30 apart |
| Stelliums.StelliumSpan | aspects/ptolemaic.py:295-326 | any two points of a reported stellium are at most 30 apart |
| Matchers.TSquareAt | aspects/ptolemaic.py:336-361 | a triple gives a T-square exactly when some focal role fits, and the first such role is used |
| Matchers.TSquareEdgesSwap | aspects/ptolemaic.py:341-345 | the T-square shape does not depend on the order of the two opposed points |
| Matchers.TSquareOfProperties | aspects/ptolemaic.py:336-361 | a T-square found on a combination has its focal square to both ends of an opposition and is well formed |
| Matchers.TSquares | aspects/ptolemaic.py:328-362 | every T-square has that shape and no key set is reported twice |
| Matchers.TSquaresComplete | aspects/ptolemaic.py:328-362 | every triple of keys with a fitting role is reported |
| Matchers.TrineEdgesAllPairs | aspects/ptolemaic.py:370-373 | the three trine edges hold exactly when every pair is a trine |
| Matchers.GrandTrineAt | aspects/ptolemaic.py:370-389 | a triple gives a grand trine exactly when all three pairs are trines |
| Matchers.GrandTrineAtProperties | aspects/ptolemaic.py:370-389 | a grand trine holds sorted resolved keys with three trines and is well formed |
| Matchers.GrandTrines | aspects/ptolemaic.py:364-390 | every grand trine has that shape, and no key set is reported twice |
| Matchers.GrandTrinesComplete | aspects/ptolemaic.py:364-390 | every all-trine triple of keys is reported |
| Matchers.OppPairs | aspects/ptolemaic.py:400-402 | the candidate axes are the pairs in opposition |
| Matchers.CrossCandidates | aspects/ptolemaic.py:400-405 | every candidate is two opposition axes |
| Matchers.FirstCross | aspects/ptolemaic.py:403-414 | the first pair of axes covering the four points with all cross pairs square is chosen |
| Matchers.CrossOf | aspects/ptolemaic.py:415-432 | the grand cross's axes cover its four points, with two oppositions and four squares |
| Matchers.GrandCrossAt | aspects/ptolemaic.py:398-433 | a quadruple gives a grand cross only through a fitting pair of axes, and none exactly when no candidate fits |
| Matchers.GrandCrossAtProperties | aspects/ptolemaic.py:398-433 | a grand cross holds sorted resolved keys, and it is well formed |
| Matchers.GrandCrosses | aspects/ptolemaic.py:392-435 | every grand cross has that shape, and no key set is reported twice |
| Matchers.GrandCrossesComplete | aspects/ptolemaic.py:392-435 | every quadruple with two opposition axes and four cross squares is reported |
| Matchers.ByPosition | aspects/ptolemaic.py:443 | sorting by longitude permutes the points into ascending order (also at aspects/ptolemaic.py:532) |
| Matchers.GrandSextileAt | aspects/ptolemaic.py:441-477 | six points give a grand sextile exactly when, sorted by longitude, neighbours are sextile and points two apart are trine |
| Matchers.GrandSextileAtProperties | aspects/ptolemaic.py:441-477 | a grand sextile is sorted by longitude, and its triples are the even and odd positions |
| Matchers.GrandSextileTriples | aspects/ptolemaic.py:466-470 | each of the two triples is a grand trine |
| Matchers.GrandSextiles | aspects/ptolemaic.py:437-480 | every grand sextile has that shape and no key set is reported twice |
| Matchers.GrandSextilesComplete | aspects/ptolemaic.py:437-480 | every six keys forming the sorted ring are reported |
| Matchers.MysticRectangleAt | aspects/ptolemaic.py:486-503 | a quadruple in key order gives a mystic rectangle exactly when a-c and b-d are oppositions, a-b and c-d trines, and b-c and d-a sextiles |
| Matchers.MysticRectangleAtProperties | aspects/ptolemaic.py:486-522 | a mystic rectangle holds sorted resolved keys in that single role assignment and is well formed |
| Matchers.MysticRectangles | aspects/ptolemaic.py:482-524 | every mystic rectangle has that shape and no key set is reported twice |
| Matchers.MysticRectanglesComplete | aspects/ptolemaic.py:482-524 | every quadruple fitting the role assignment is reported |
| Matchers.TrapezeAt | aspects/ptolemaic.py:530-545 | four points give a trapeze exactly when, sorted by longitude, a-b, b-c, c-d are sextiles and a-d an opposition |
| Matchers.TrapezeAtProperties | aspects/ptolemaic.py:530-562 | a trapeze is sorted by longitude and well formed |
| Matchers.Trapezes | aspects/ptolemaic.py:526-564 | every trapeze has that shape and no key set is reported twice |
| Matchers.TrapezesComplete | aspects/ptolemaic.py:526-564 | every four keys forming the sorted chain are reported |
| PatternSearch.AllMatchesGrouped | aspects/ptolemaic.py:576-589 | the matches come in catalogue order, stellium to trapeze, each one a result of its matcher |
| PatternSearch.AllMatchesIncludes | aspects/ptolemaic.py:586-588 | every matcher's result is among the matches |
| PatternSearch.ComputePatterns | aspects/ptolemaic.py:566-589 | no resolved keys give no patterns; otherwise the matches are grouped in catalogue order and each is a well-formed match |
| PatternSearch.Serialise | aspects/ptolemaic.py:607-612 | one dict per pattern, in order |
| PatternSearch.ToMajorAspect | aspects/ptolemaic.py:59-72 | the dict carries the pattern's configuration, points and links |
| PatternSearch.ComputeMajorAspects | aspects/ptolemaic.py:592-597 | one serialised entry per detected pattern, in the same order, with that pattern's configuration, points and links; no selected keys give [] |
| PatternSearch.MajorAspectsAgree | aspects/ptolemaic.py:592-597 | each serialised link is of a kind its configuration lists, the structures name the pattern's points, and configurations come in catalogue order |
| PatternSearch.CatalogueIndex | aspects/ptolemaic.py:85-156 | each pattern's configuration sits at its rank in the catalogue |
| Calendar.DaysInMonth | utils.py:114 | `monthrange` gives 28 to 31 days, and 29 exactly for February of a leap year |
| Calendar.MinutesOrder | utils.py:125-148 | comparing datetimes field by field is comparing their minute counts |
| Calendar.AddMonths | utils.py:110-116 | the result is a valid date; its month index is advanced by exactly `months`; the day is clamped to the month's length; hour, minute and zone are kept |
| Calendar.AddMonthsInverse | utils.py:110-116 | for days up to 28, adding n months and then -n gives the date back |
| Calendar.AddMonthsCompose | utils.py:110-116 | for days up to 28, adding a then b months is adding a+b |
| Calendar.ClampPersists | utils.py:110-116 | 31 Jan steps to 28 Feb and then to 28 Mar; in a leap year 31 Jan steps to 29 Feb (also at utils.py:145-148) |
| Calendar.AddMonthLater | utils.py:145-148 | a monthly step always moves forward |
| Calendar.NextDay | utils.py:140-144 | adding a day is a valid datetime exactly 1440 minutes later |
| Calendar.NextHour | utils.py:135-139 | adding an hour gives a valid datetime exactly 60 minutes later |
| Calendar.NextMinute | utils.py:130-134 | adding a minute is a valid datetime exactly one minute later |
| Calendar.Advance | utils.py:128-148 | every step moves forward, by exactly the fixed step for minute, hour and day |
| Calendar.Walk | utils.py:128-148 | the walk is empty exactly when start is past end; it starts at start, stays within end, follows the step, and stops only when the next step passes end |
| Calendar.IterRange | utils.py:119-150 | an error exactly when start is after end or the granularity is unsupported; otherwise start first, all values within end, strictly increasing, one step apart with the last within a step of end, or monthly `add_months` steps whose next step would pass end |
| Calendar.IterRangeCount | utils.py:128-144 | a fixed-step walk yields (end-start)/step + 1 values |
| Calendar.LeapDaySpan | utils.py:140-144 | 28 Feb 12:00 to 1 Mar 00:00 in a leap year spans 36 hours |
| Labels.ClientAspectsAgree | frontend/js/shared/core.js:45-51 | the client table has the engine's names, angles, orbs and icons in the same order |
| Labels.AspectIconMapAgrees | frontend/js/shared/core.js:53-59 | the icon map gives every aspect the table's icon and names no other aspect |
| Labels.EmojiNumber | frontend/js/shared/core.js:86-89 | there is a keycap exactly for 0..12, and it is non-empty |
| Labels.EmojiNumberInjective | frontend/js/shared/core.js:86-89 | different numbers have different keycaps |
| Labels.JsRem | frontend/js/shared/core.js:95 | JavaScript's `%` agrees with the mathematical remainder on non-negative numbers and stays strictly inside (-b, b) |
| Labels.OrdinalSuffixAsWrittenAgrees | frontend/js/shared/core.js:94-95 | the suffix as written matches the English suffix exactly when the number is not 11, 12 or 13 modulo 100 |
| Labels.OrdinalSuffixAsWritten | frontend/js/shared/core.js:94-95 | as written, the suffix is always one of th, st, nd, rd; where it differs from English is stated by Labels.OrdinalSuffixAsWrittenAgrees |
| Labels.OrdinalSuffix | frontend/js/shared/core.js:94-95 | the English suffix, always one of th, st, nd, rd |
| Labels.OrdinalTeensAsWritten | frontend/js/shared/core.js:94-95 | as written, 11, 12, 13 and 111 get "st", "nd", "rd" and "st" |
| Labels.ToOrdinalAsWritten | frontend/js/shared/core.js:91-97 | a non-finite input gives "", and only it; otherwise the decimal numeral followed by the suffix the as-written lookup picks, which is "st", "nd" or "rd" for 11, 12 and 13 |
| Labels.ToOrdinal | frontend/js/shared/core.js:91-97 | the English ordinal: a non-finite input gives "", and only it; otherwise the decimal numeral followed by "th" for negative numbers and numbers ending in 11, 12 or 13, and by the last digit's suffix for the rest |
| Labels.ToOrdinalParses | frontend/js/shared/core.js:91-97 | both the as-written and the English ordinal read back with `parseInt` as the number |
| Labels.ToOrdinalsAgree | frontend/js/shared/core.js:91-97 | the as-written and the English ordinal of a number differ exactly when the number is non-negative and ends in 11, 12 or 13 |
| Labels.IndexOf | frontend/js/shared/core.js:100 | `indexOf` gives the first position of the key, or none exactly when it is absent (also at frontend/js/shared/core.js:106) |
| Labels.HouseOrderDistinct | frontend/js/shared/core.js:30-43 | the twelve house keys are distinct |
| Labels.FormatHouseLabelShort | frontend/js/shared/core.js:99-103 | a key that is not a house key comes back unchanged; house keys get the as-written ordinal, stated by Labels.HouseLabels |
| Labels.FormatHouseLabel | frontend/js/shared/core.js:105-110 | an absent or empty key gives "House"; any other non-house key keeps its length and loses every underscore; house keys are stated by Labels.HouseLabels |
| Labels.HouseIndex | frontend/js/shared/core.js:30-43 | house key i is found at position i (also at frontend/js/shared/core.js:100) |
| Labels.HouseLabels | frontend/js/shared/core.js:99-110 | as written, house i's short label is the as-written ordinal of i+1, which reads back as i+1; its long label is the short one followed by " House" |
| Labels.HouseLabelsEnglish | frontend/js/shared/core.js:99-110 | with the English ordinal, house i's short label is the ordinal of i+1, which reads back as i+1; the long label is the short one followed by " House" |
| Labels.HouseLabelsAgree | frontend/js/shared/core.js:99-103 | the as-written and the English label of house i are the same exactly when it is not the eleventh or twelfth house |
| Labels.TwelfthHouseAsWritten | frontend/js/shared/core.js:105-107 | as written, the twelfth house's long label is "12nd House" |
| Labels.FormatHouseLabelShortEnglish | frontend/js/shared/core.js:99-103 | the intended short label: a non-house key comes back unchanged, and house keys are stated by Labels.HouseLabelsEnglish |
| Labels.FormatHouseLabelEnglish | frontend/js/shared/core.js:105-110 | the intended long label: "House" for an absent or empty key, the key without underscores for other non-house keys, and house keys as Labels.HouseLabelsEnglish states |
| Labels.PlainHouseLabel | frontend/js/shared/core.js:108-109 | a non-house key with every underscore made a space: the same length and no underscore, and "House" for the empty key |
| Labels.EleventhHouseAsWritten | frontend/js/shared/core.js:91-103 | as written, the eleventh house is "11st"; with the English suffix it is "11th" |
| Labels.Capitalise | frontend/js/shared/core.js:128-131 | the length is kept; the first character is upper-cased, the rest is unchanged, and "" stays "" |
| Labels.CapitaliseIdempotent | frontend/js/shared/core.js:128-131 | capitalising twice is capitalising once |
| Text.Pad | frontend/js/shared/shared.js:483-485 | `pad` gives at least two characters; a non-negative number gives digits of that value, two of them below 100 (also at frontend/js/home/shared.js:107-109) |
| Text.ParseIntOfPad | frontend/js/shared/shared.js:483-485 | a padded number reads back with `parseInt` as itself (also at frontend/js/home/shared.js:107-109) |
| FormText.FormatCompactDatetime | frontend/js/shared/shared.js:487-491 | the badge is trimmed and at least five characters long, whatever the date and time (also at frontend/js/home/shared.js:111-115) |
| FormText.ParseFromDisplay | frontend/js/shared/shared.js:692-697 | empty text gives no date and no time; each side read back is trimmed and free of the dot (also at frontend/js/home/shared.js:157-162) |
| FormText.BadgeRoundTrip | frontend/js/shared/shared.js:487-491 | reading a badge gives back the trimmed date and time, or "—" and "--:--" for blank ones, when neither contains the dot (also at frontend/js/shared/shared.js:692-697 and frontend/js/home/shared.js:111-115 and 157-162) |
| FormText.NormalizeTimeString | frontend/js/shared/shared.js:652-662 | blank or unreadable input gives the fallback; otherwise "HH:MM" whose fields read back as the hour clamped to 0..23 and the minute clamped to 0..59 (also at frontend/js/home/shared.js:117-127) |
| FormText.ClockTextReads | frontend/js/shared/shared.js:652-662 | an "HH:MM" text reads back as its two numbers |
| FormText.NormalizeTimeStringIdempotent | frontend/js/shared/shared.js:652-662 | normalising a normalised time changes nothing (also at frontend/js/home/shared.js:117-127) |
| FormText.TimeClamps | frontend/js/shared/shared.js:652-662 | an hour past 23 with a minute past 59 is read and then clamped to "23:59" |
| FormText.NormalizeDateString | frontend/js/shared/shared.js:664-674 | when the three "-"-separated parts of the trimmed text read as numbers, the year, month and day, each padded to two digits and joined by "-"; otherwise the fallback; the result reads back as the same numbers (also at frontend/js/home/shared.js:129-139) |
| FormText.DateTextReads | frontend/js/shared/shared.js:664-674 | a padded "y-m-d" reads back as its three numbers |
| FormText.NormalizeDateStringIdempotent | frontend/js/shared/shared.js:664-674 | normalising a normalised date changes nothing (also at frontend/js/home/shared.js:129-139) |
| FormText.DateNoRangeCheck | frontend/js/shared/shared.js:664-674 | month 13 or day 45 pass through unchanged: there is no calendar check |
| FormText.ParseLatLngText | frontend/js/shared/shared.js:530-540 | a result exactly when there are at least two tokens and both read as numbers, and then its two numbers are what the first two tokens read as |
| FormText.LatLngRoundTrip | frontend/js/shared/shared.js:530-540 | "a, b" with two readable numbers reads back as those numbers |
| FormText.NormalizeLocationValues | frontend/js/shared/shared.js:560-584 | `tz` equals `tz_str`; city, zone, lat and lng are the trimmed value, else the trimmed default; the nation is the upper-cased raw code, else the code the names table gives the raw name, else a two-letter raw name upper-cased, else ""; the name is the codes table's name for the resolved code, else the raw name, else the resolved code, for every raw code, a blank one included; it is never empty when there is a name or a nation |
| FormText.NormalizeLocationValuesIdempotent | frontend/js/shared/shared.js:560-584 | normalising a normalised record again gives the same record, when the tables have no entry for the blank code, the names table's codes are trimmed upper case, and the raw code has no lower-case letter |
| FormText.UpperIdempotent | frontend/js/shared/shared.js:560-584 | upper-casing twice is upper-casing once, and the result has no lower-case letter |
| FormText.TwoLetterNameIsCode | frontend/js/shared/shared.js:560-584 | a two-letter nation not found among the country names is kept as the code, upper-cased |
| ClientRender.ClientTableIsEngineTable | frontend/js/shared/render.js:8-14 | the renderers' aspect table is the engine's table without icons (also at frontend/js/home/render.js:7-13) |
| ClientRender.JsFmod | frontend/js/shared/render.js:71-75 | JavaScript's `%` on a non-negative float lies in [0, m) |
| ClientRender.NormalizeAngleDiff | frontend/js/shared/render.js:71-75 | the client separation lies in [0, 180] (also at frontend/js/home/render.js:51-55) |
| ClientRender.NormalizeAngleDiffAgrees | frontend/js/shared/render.js:71-75 | the client separation equals the engine's (also at aspects/ptolemaic.py:196-198) |
| ClientRender.NormalizeAngleDiffSymmetric | frontend/js/shared/render.js:71-75 | the separation is symmetric, and 0 for equal longitudes (also at frontend/js/home/render.js:51-55) |
| ClientRender.ClassifyIn | frontend/js/shared/render.js:77-85 | none exactly when no window contains the separation; otherwise the orb is \|diff-angle\| |
| ClientRender.ClassifyAspect | frontend/js/shared/render.js:77-85 | a classified orb lies in [0, 6] (also at frontend/js/home/render.js:57-65) |
| ClientRender.ClassifyInPicks | frontend/js/shared/render.js:77-85 | the classification comes from a row whose window contains the separation |
| ClientRender.ClassifyInAgrees | frontend/js/shared/render.js:77-85 | the client classification equals the engine's on the same table (also at aspects/ptolemaic.py:200-205) |
| ClientRender.ClassifyAspectAgrees | frontend/js/shared/render.js:77-85 | with the default table, the client and engine classify every separation the same way (also at aspects/ptolemaic.py:200-205) |
| ClientRender.ExtractPoints | frontend/js/shared/render.js:87-95 | the points are exactly the object entries whose own `abs_pos` is a number, in key order, each with its position (also at frontend/js/home/render.js:67-75) |
| ClientRender.KeyRowFor | frontend/js/shared/render.js:116-127 | a row exists exactly when the separation classifies, for the given base and other |
| ClientRender.OtherRows | frontend/js/shared/render.js:108-129 | the rows of one base pair it with admitted targets only |
| ClientRender.BaseRows | frontend/js/shared/render.js:103-129 | every row's base is a base point present in the subject, and its target is admitted |
| ClientRender.ComputeKeyAspects | frontend/js/shared/render.js:97-132 | the rows are sorted ascending by orb, each is a key aspect (present base, allowed other, not itself, deduplicated among bases), and they are a permutation of the generated rows (also at frontend/js/home/render.js:77-112) |
| ClientRender.ComputeKeyAspectsComplete | frontend/js/shared/render.js:97-132 | every key aspect appears among the rows (also at frontend/js/home/render.js:77-112) |
| ClientRender.KeyAspectPairUnique | frontend/js/shared/render.js:111-113 | two key aspects on the same unordered pair are the same row |
| ClientRender.ComputeKeyAspectsOncePerPair | frontend/js/shared/render.js:111-113 | with distinct base names, no unordered pair appears twice |
| ClientRender.CrossRowFor | frontend/js/shared/render.js:355-364 | a transit row exists exactly when the separation classifies |
| ClientRender.TargetRows | frontend/js/shared/render.js:349-366 | the rows of one transit base pair it with the targets |
| ClientRender.TransitRows | frontend/js/shared/render.js:345-366 | every row joins a present transit base to a target |
| ClientRender.TransitNatalAspects | frontend/js/shared/render.js:336-369 | the rows are sorted ascending by orb, each joins a transit base to an allowed natal point, and they are a permutation of the generated rows (also at frontend/js/home/render.js:294-326) |
| ClientRender.TransitNatalAspectsComplete | frontend/js/shared/render.js:336-369 | every such transit-to-natal aspect appears, with no deduplication |
| ClientRender.AllowedSets | frontend/js/shared/render.js:16-27 | the shared list holds ten planets; the home list adds the ascendant (also at frontend/js/home/render.js:15-27) |
| ClientRender.SharedTransitNatal | frontend/js/shared/render.js:336-369 | sorted by orb; the natal targets come from the given set or the ten planets |
| ClientRender.HomeTransitNatal | frontend/js/home/render.js:294-326 | sorted by orb, and the natal targets come from the eleven allowed points |
| ClientRender.HomeTransitNatalExtendsShared | frontend/js/home/render.js:294-326 | the home table holds every shared row, and adds only rows to the ascendant (also at frontend/js/shared/render.js:336-369) |
| ClientRender.NatalSummaryAspects | frontend/js/home/render.js:204-220 | a summary exists exactly when sun, moon and ascendant are present; it has at most seven rows sorted by orb, all from those bases to allowed points |
| ClientRender.TopKeyAspects | frontend/js/home/render.js:218-220 | the first n rows are at most n sorted key aspects |
| Sorting.TakeTightest | frontend/js/home/render.js:218-220 | a row of a sorted list is cut by `slice(0, n)` only when n rows are kept, each ranking at least as well |
| ClientRender.NatalSummaryTightest | frontend/js/home/render.js:217-220 | a key aspect left out of the summary only when there are seven rows, none with a larger orb |
| ClientRender.GetAspectBasePoints | frontend/js/shared/render.js:43-61 | the non-empty configured points (else the defaults) that match a default point up to case; when a configured point survives, the result is exactly the surviving configured points, and no unconfigured default point is added; when none survives, it is the defaults |
| ClientRender.GetAspectBasePointsDefault | frontend/js/shared/render.js:43-61 | with no configured points the default list comes back |
| ClientRender.Coalesce | frontend/js/shared/render.js:498 | the `??` chain is absent exactly when every field is; otherwise it is one of the fields |
| ClientRender.OrbValue | frontend/js/shared/render.js:499 | a numeric orb is kept; text is read with `parseFloat`; a missing or empty orb reads as 9999 |
| ClientRender.NormalizeRaw | frontend/js/shared/render.js:492-512 | a row is kept exactly when both lower-cased keys are allowed and the orb is readable, with the first truthy names and type |
| ClientRender.ExtractRelAspects | frontend/js/shared/render.js:491-508 | the rows are the normalised entries of the kept records, one per kept record, in the records' order; so they are exactly the kept normalised entries, with allowed keys |
| ClientRender.RelationshipTop | frontend/js/shared/render.js:512-514 | at most seven kept rows, sorted by `orb \|\| 999`, and the total count of kept rows |
| ClientRender.RelationshipTopTightest | frontend/js/shared/render.js:512-514 | a kept row is left out only when seven rows rank at least as well |
| ClientRender.RelationshipExactLast | frontend/js/shared/render.js:512 | after an exact (orb 0) row come only exact rows or rows with an orb of at least 999 |
| ClientRender.HomeRelationshipTop | frontend/js/home/render.js:428-436 | at most seven rows, sorted by `orb \|\| 999`, all with both planets allowed; all of them when at most seven are allowed |
| ClientRender.HomeRelationshipTopTightest | frontend/js/home/render.js:428-436 | a kept row is left out only when seven rows rank at least as well |
| AdvancedView.CollectPoints | frontend/js/advanced/main.js:167-179 | points are exactly the entries of type "AstrologicalPoint" and houses exactly those of type "House", in key order and with their values |
| AdvancedView.CollectPointsPartition | frontend/js/advanced/main.js:167-179 | no key is both a point and a house, and other entries are dropped |
| AdvancedView.AspectIcon | frontend/js/advanced/main.js:196-198 | the icon map's icon for a known aspect, "✶" otherwise (also at frontend/js/shared/core.js:53-59) |
| AdvancedView.AspectIconOfTable | frontend/js/advanced/main.js:196-198 | every aspect of the table gets its own icon (also at frontend/js/shared/core.js:45-59) |
| AdvancedView.AdvOrb | frontend/js/advanced/main.js:190-193 | a numeric `orb_value` wins; otherwise the parsed `orb`, with 0 or unreadable becoming none |
| AdvancedView.NormalizeAdvRow | frontend/js/advanced/main.js:183-203 | a row exists exactly when base, other and type resolve; it has the normalised keys, lower-cased type, its icon and orb |
| AdvancedView.NormalizeAspectRows | frontend/js/advanced/main.js:181-205 | the rows are the normalised rows of the records that have one, one per such record, in the list's order; each has non-empty keys and type |
| Text.FirstTruthy | frontend/js/advanced/main.js:185 | `a \|\| b \|\| ...` on strings: the first non-empty candidate, and "" exactly when all are empty (also at frontend/js/shared/render.js:492-495) |
| Sorting.KeptIndices | frontend/js/advanced/main.js:183-203 | the positions at which the conversion gives a value, in increasing order: all of them and no other (also at frontend/js/shared/render.js:491-508) |
| Sorting.ConsKept | frontend/js/advanced/main.js:183-203 | pushing a record's converted value, when it has one, in front of the tail's converted values gives the converted values of the whole list in order |
| Sorting.MapsKeptMembers | frontend/js/advanced/main.js:183-203 | a list of converted values in order holds exactly the values the conversion gives for some record |
| AdvancedView.NormalizedTypeLower | frontend/js/advanced/main.js:194 | every row's type is lower-case |
| AdvancedView.ExtractMajorAspects | frontend/js/advanced/main.js:207-213 | the payload's list wins, then the snapshot's, then the subject's; [] otherwise |
| AdvancedView.ExtractNatalMajorAspects | frontend/js/advanced/main.js:215-220 | the natal list wins; without one the snapshot's natal list is returned; with neither, or no payload, [] |
| AdvancedView.MajorListsSeparate | frontend/js/advanced/main.js:207-220 | the pattern list depends only on the three `major_aspects` fields and the natal list only on the two `natal_major_aspects` fields: changing one family leaves the other's result unchanged |
| AdvancedView.MajorAspectsPriority | frontend/js/advanced/main.js:207-213 | the subject's list is used only when the other two are missing |
| AdvancedView.PairKey | frontend/js/advanced/main.js:224 | the pair key is the two keys and a two-character separator |
| AdvancedView.PairKeySymmetric | frontend/js/advanced/main.js:224 | `norm(a, b)` equals `norm(b, a)` |
| AdvancedView.PairKeyOrdered | frontend/js/advanced/main.js:224 | the smaller key comes first |
| AdvancedView.PairKeyCollision | frontend/js/advanced/main.js:224 | keys holding "__" can collide: ("a__b", "c") and ("a", "b__c") |
| AdvancedView.HitMap | frontend/js/advanced/main.js:225-232 | every entry comes from an aspect row, and the last row's pair is present |
| AdvancedView.HitMapLast | frontend/js/advanced/main.js:225-232 | a pair maps to the last row written for it: later rows overwrite earlier ones |
| AdvancedView.MatrixCell | frontend/js/advanced/main.js:239-254 | the diagonal shows the point icon; elsewhere a cell is empty exactly when the pair has no aspect, below the diagonal it never shows an orb and above it never an icon |
| AdvancedView.AspectMatrix | frontend/js/advanced/main.js:222-258 | none exactly when there are no keys or no aspects; otherwise a square of cells |
| AdvancedView.MatrixMirror | frontend/js/advanced/main.js:239-254 | mirrored cells are empty together, and a lower icon faces an upper orb of the same aspect |
| AdvancedView.MatrixShowsAspect | frontend/js/advanced/main.js:222-258 | an aspect's pair shows its icon below the diagonal and its orb above it |
| AdvancedView.GroupKey | frontend/js/advanced/main.js:450 | the id when it is non-empty, else the name when it is non-empty, else "pattern"; never empty |
| AdvancedView.GroupKeyFirstTruthy | frontend/js/advanced/main.js:450 | the group key is the first truthy of id, name and "pattern", in that order |
| AdvancedView.WithGroupKey | frontend/js/advanced/main.js:449-454 | a group holds exactly the patterns with its key, in order |
| AdvancedView.GroupContents | frontend/js/advanced/main.js:449-454 | there is a group exactly for each key that occurs, holding its patterns, and none is empty |
| AdvancedView.MaxCount | frontend/js/advanced/main.js:456-457 | the largest point count in a group |
| AdvancedView.GroupPatterns | frontend/js/advanced/main.js:448-458 | the groups are sorted by descending largest point count; each is a non-empty group of one key; keys are distinct; they are a permutation of the grouped values |
| AdvancedView.GroupPatternsComplete | frontend/js/advanced/main.js:448-458 | every pattern lands in the group of its key |
| AdvancedView.GroupPatternsStable | frontend/js/advanced/main.js:455-458 | groups with equal largest counts keep their first-seen order |
| AdvancedView.StructuredAspects | frontend/js/advanced/main.js:651-655 | computed aspects win; only an empty list falls back to the normalised payload rows |
| AdvancedView.MatrixKeys | frontend/js/advanced/main.js:656-661 | the matrix keys are the filtered keys, in order, that occur in some aspect |
| AdvancedView.MatrixKeysCoverAspects | frontend/js/advanced/main.js:656-661 | both keys of an aspect among the filtered keys are matrix keys |
| Config.DefaultActivePointsAllowed | frontend/js/home/shared.js:58-74 | every default active point is one the home renderer allows (also at frontend/js/home/render.js:15-27) |
| Config.DefaultBasePoints | frontend/js/shared/render.js:43-61 | with no configured points, the base points are the defaults (also at frontend/js/shared/shared.js:82-98) |
| Config.Override | frontend/js/home/config.js:16-20 | a non-empty input wins over the default; an empty or missing one keeps it |
| Config.GetConfigFromInputs | frontend/js/home/config.js:14-25 | each setting is its input when non-empty, else the default; the sidereal mode is `null` unless the zodiac is "Sidereal" |
| Config.GetConfigFromInputsEmpty | frontend/js/home/config.js:14-25 | with every input empty the defaults come back (also at frontend/js/home/shared.js:58-74) |
| Config.GetConfigFromInputsConsistent | frontend/js/home/config.js:21-23 | no sidereal mode stands next to a zodiac other than "Sidereal" |
| Config.FixZodiac | frontend/js/home/config.js:36-41 | the zodiac ends as "Sidereal" or "Tropic"; "Tropical" becomes "Tropic" and any other value the default |
| Config.LoadConfig | frontend/js/home/config.js:27-49 | every setting is the stored one, else the default; the zodiac is fixed |
| Config.LoadConfigRoundTrip | frontend/js/home/config.js:27-49 | storing a loaded configuration and loading it gives it back; empty storage gives the defaults |
| Config.LoadConfigKeepsSiderealMode | frontend/js/home/config.js:35-41 | a stored tropical zodiac keeps its stored sidereal mode: loading does not clear it |
| Payloads.ToFloat | frontend/js/home/payloads.js:13-16 | the number the field's text starts with when it has one, and the fallback exactly when it has none |
| Payloads.ToFloatReads | frontend/js/home/payloads.js:8-16 | a digit string reads as its value; a missing field gives the fallback |
| Payloads.GetDateTimeParts | frontend/js/home/payloads.js:18-32 | a blank date keeps the default year, month and day; a blank time keeps the default hour and minute; a time without a colon keeps the default minute, read back from its decimal text |
| Payloads.GetDateTimePartsHourOnly | frontend/js/home/payloads.js:20-30 | a bare hour is kept and the default minute is used |
| Payloads.GetDateTimePartsRoundTrip | frontend/js/home/payloads.js:18-31 | a "YYYY-MM-DD" date and "HH:MM" time read back as exactly their numbers, whatever the defaults |
| Payloads.BirthSubject | frontend/js/home/payloads.js:77-85 | the name is the field's value, else "Subject"; the date-time parts are read from `dateInput` and `timeInput` with the 1990-01-01 12:00 defaults; lat and lng are the numbers their fields start with, else 52.3702 and 4.8952; zone, city and nation are the fields' values, else Europe/Amsterdam, Amsterdam and NL |
| Payloads.Moment | frontend/js/home/payloads.js:87-94 | the transit date-time parts are read with the 2025-01-01 12:00 defaults; the transit lat, lng, zone, city and nation fields are read as for the birth, with the same fallbacks |
| Payloads.GetVal | frontend/js/home/payloads.js:35-38 | the field's value when it is present and non-empty, else the fallback |
| Payloads.Coordinate | frontend/js/home/payloads.js:50-51 | `parseFloat(...) \|\| fallback`: a non-zero number read from a non-empty field is kept; a missing or empty field, text that does not read, or 0 gives the default |
| Payloads.CoordinateReads | frontend/js/home/payloads.js:50-51 | a non-zero number is kept, and 0 is replaced by the default |
| Payloads.BuildRelationshipPartner | frontend/js/home/payloads.js:34-56 | the year, month and day are the numbers read from the date field (else the default date), or the default date's text where they do not read; the hour and minute are read from the time field, else 12 and 0; a non-zero coordinate field is used as read; a non-empty name, zone, city or nation field is used, else the default |
| Payloads.PartnerFromDefaults | frontend/js/home/payloads.js:39-49 | with no date or time fields, the parts are those read from the default date and time |
| Payloads.ReadDateOfDigits | frontend/js/home/payloads.js:41 | a digit-string "a-b-c" reads as its three numbers |
| Payloads.ReadClockOfDigits | frontend/js/home/payloads.js:42 | a digit-string "h:m" reads as its two numbers |
| Payloads.PartnerUnreadableYear | frontend/js/home/payloads.js:41 | an unreadable year becomes the default date's first part as text, not as a number (also at frontend/js/home/payloads.js:45) |
| Payloads.NormalizeConfig | frontend/js/home/payloads.js:96-99 | the normalised settings are consistent; only the sidereal mode can change; consistent settings are unchanged |
| Payloads.NormalizeFormConfig | frontend/js/home/payloads.js:75 | the settings read from the form are already normalised (also at frontend/js/home/payloads.js:96-99) |
| Payloads.Assemble | frontend/js/home/payloads.js:101-184 | the birth is sent exactly for "natal" and "natal_transit"; the moment is sent exactly when the mode is neither "natal" nor "relationship", and left out exactly for "natal"; the partners are sent exactly for "relationship"; the settings and the returned date parts are those of the payload |
| Payloads.BuildPayloadFromForm | frontend/js/home/payloads.js:58-185 | the request is the mode table applied to the form's birth, moment and partners and the form's settings, which are consistent |
| Payloads.EmptyFormDefaults | frontend/js/home/payloads.js:59-94 | with no fields, the birth is 1990-01-01 12:00 and the transit 2025-01-01 12:00, both at Amsterdam's coordinates |
| Payloads.BuildRelationshipPayload | frontend/js/home/payloads.js:187-211 | the relationship payload's settings are consistent |
| Payloads.RelationshipPayloadsAgree | frontend/js/home/payloads.js:139-172 | the relationship payload and the "relationship" mode send the same partners and settings (also at frontend/js/home/payloads.js:187-211) |

## Left out

- Floating point: longitudes, orbs and coordinates are exact reals, so IEEE rounding, `NaN` and `Infinity` are not modelled. A `NaN` from JavaScript is `None`, and `toFixed(2)` is not modelled.
- `Text.ParseFloat`: reads an optional sign, digits and an optional fraction. It does not read exponents, "Infinity", or hexadecimal text.
- `Text.ParseInt`: reads leading whitespace, an optional sign and a digit prefix. It does not read radix prefixes.
- Case mapping is ASCII only. There is no Unicode case folding.
- Whitespace is the six ASCII space characters.
- The SVG, HTML and DOM output is not modelled. This covers card markup, tooltips, the moon phase and the point icons (`POINTS_ICONS`). The matrix is modelled as a grid of cell values.
- `Stelliums.StelliumMatches`: states that every reported stellium is sound and that no key set repeats. Its completeness is not stated, because the sweep's nested clusters depend on the order of the sweep.
- `Calendar.AddMonthsInverse`: holds only for days up to 28, because clamping loses the original day.
- The hidden helpers of the renderers are parameters. These are `normalizePointKey` in `normalizeAspectRows` and `computeAspectsShared` in `renderStructured`.
- Configuration reads that can throw are not modelled. In `getAspectBasePoints` the configured points are a parameter, and the `try`/`catch` is not modelled.
- Object keys are taken in insertion order. JavaScript's ordering of integer-like keys first is not modelled.
- Inputs that are not strings (numbers passed to `capitalise`, objects as point names) are not modelled.
- `Payloads.BuildPayloadFromForm`: the settings inputs are a parameter, standing for the DOM inputs that `getConfigFromInputs` reads.
- `FormText.NormalizeLocationValues`: the country-code and country-name tables are parameters.
- `FormText.NormalizeLocationValuesIdempotent`: holds only under its three conditions. A raw code such as "us" that the codes table does not know keeps "us" as its name on the first pass, while its upper-cased form "US" finds the table's name on the second.
- `ClientRender.ExtractPoints`: an entry whose own `abs_pos` is `null` or text is a point in JavaScript but not in the model, because a point's position is a number here.
- `ClientRender.ExtractRelAspects`: the records are a parameter. How the relationship payload's list is chosen (the payload itself when it is an array, else its `aspects`, else its `active_aspects`, else [], frontend/js/shared/render.js:483-490) is not modelled.
- `AdvancedView.PairKey`: `LexLess` compares code points. JavaScript's `<` compares UTF-16 code units, so the two orders can differ for characters outside the Basic Multilingual Plane.
- `Payloads.GetDateTimeParts`: the seconds and the time zone of the moment are not modelled.
- `Config.LoadConfig`: storage holds only the six settings. Other stored keys, JSON parse errors and the writes back into the inputs are not modelled.
- Python's `datetime` year bounds and time zones beyond a label are not modelled. `ensure_config`, the kerykeion wrappers and the report text are not modelled either.
- `Stelliums.ExtendedSorted`: requires longitudes in [0, 360). The source accepts any float; kerykeion reports positions in that range.
- `Stelliums.WindowClose`: requires longitudes in [0, 360), for the same reason. Outside that range the unwrapped span is not modelled.
- `Stelliums.StelliumSpan`: requires longitudes in [0, 360), for the same reason.
- The `base` and `other` point summaries of each aspect row (`_point_summary`, aspects/ptolemaic.py:228-236) are not modelled. They copy the point's name, sign, position, absolute position, house and retrograde flag into the row, and no property of the row depends on them.
- `Calendar.AddMonths`: a date-time has no seconds or microseconds. `dt.replace` keeps them, and so they play no part in the stepping.
- `Aspects.Round2`: gives `round(x, 2)` on exact reals with ties to even. It is not the binary float result.

## Findings

| source | as written | input that shows it | evidently intended | confidence | as-written member | corrected member |
|---|---|---|---|---|---|---|
| frontend/js/shared/core.js:91-97 | the first lookup `((n % 100) - 20) % 10` misses for 1..19, so the fallback `n % 10` gives 11st, 12nd, 13rd and 111st | 11, read as the eleventh house label | English ordinals: 11th, 12th and 13th, and "th" for every number that ends in 11, 12 or 13 | not executed | Labels.OrdinalSuffixAsWritten, Labels.OrdinalTeensAsWritten, Labels.ToOrdinalAsWritten, Labels.FormatHouseLabelShort, Labels.FormatHouseLabel, Labels.HouseLabels, Labels.EleventhHouseAsWritten, Labels.TwelfthHouseAsWritten | Labels.OrdinalSuffix, Labels.ToOrdinal, Labels.OrdinalSuffixAsWrittenAgrees, Labels.ToOrdinalsAgree, Labels.FormatHouseLabelShortEnglish, Labels.FormatHouseLabelEnglish, Labels.HouseLabelsEnglish, Labels.HouseLabelsAgree |
