/** The display helpers shared by both front ends (`window.AppShared`): the
    client's aspect table, keycap numbers, ordinal suffixes, house labels and
    capitalisation. A JavaScript value that is not a finite number is `None`
    where a number is expected. */
module Labels {
  import opened Wrappers
  import opened Text
  import Aspects

  /** `ASPECTS`: the client's copy of the major aspect table. */
  const ClientAspects: seq<Aspects.NormalAspect> := [
    Aspects.NormalAspect("conjunction", 0.0, 6.0, "\U{25CE}"),
    Aspects.NormalAspect("sextile", 60.0, 4.0, "\U{273A}"),
    Aspects.NormalAspect("square", 90.0, 6.0, "\U{25A1}"),
    Aspects.NormalAspect("trine", 120.0, 6.0, "\U{25B3}"),
    Aspects.NormalAspect("opposition", 180.0, 6.0, "\U{260D}")
  ]

  /** The client table is the server's table: same names, angles, orbs and
      icons, in the same order. */
  lemma ClientAspectsAgree()
    ensures ClientAspects == Aspects.PtolemaicAspects
  {
  }

  /** `ASPECT_ICON_MAP`: aspect name to icon. */
  const AspectIconMap: map<string, string> := map[
    "conjunction" := "\U{25CE}", "sextile" := "\U{273A}", "square" := "\U{25A1}",
    "trine" := "\U{25B3}", "opposition" := "\U{260D}"
  ]

  /** The icon map and the table give every aspect the same icon, and the map
      names no other aspect. */
  lemma AspectIconMapAgrees()
    ensures forall a :: a in ClientAspects ==> a.name in AspectIconMap && AspectIconMap[a.name] == a.icon
    ensures forall n :: n in AspectIconMap ==> exists a :: a in ClientAspects && a.name == n
  {
    assert ClientAspects[0] in ClientAspects && ClientAspects[1] in ClientAspects;
    assert ClientAspects[2] in ClientAspects && ClientAspects[3] in ClientAspects;
    assert ClientAspects[4] in ClientAspects;
  }

  // ---------------------------------------------------------------------------
  // emojiNumber
  // ---------------------------------------------------------------------------

  /** Keycap pictures for 0 to 12; the last one carries a trailing space. */
  const Keycaps: seq<string> := [
    "0\U{FE0F}\U{20E3}", "1\U{FE0F}\U{20E3}", "2\U{FE0F}\U{20E3}", "3\U{FE0F}\U{20E3}",
    "4\U{FE0F}\U{20E3}", "5\U{FE0F}\U{20E3}", "6\U{FE0F}\U{20E3}", "7\U{FE0F}\U{20E3}",
    "8\U{FE0F}\U{20E3}", "9\U{FE0F}\U{20E3}", "\U{1F51F}",
    "1\U{FE0F}\U{20E3}1\U{FE0F}\U{20E3}", "1\U{FE0F}\U{20E3}2\U{FE0F}\U{20E3} "
  ]

  /** `emojiNumber(num)`: the keycap for 0..12; `None` where the function hands
      its argument back unchanged. */
  function EmojiNumber(n: int): (r: Option<string>)
    ensures r.Some? <==> 0 <= n < 13
    ensures r.Some? ==> r.value == Keycaps[n] && |r.value| > 0
  {
    if 0 <= n < |Keycaps| then Some(Keycaps[n]) else None
  }

  /** Different numbers get different keycaps. */
  lemma EmojiNumberInjective(a: int, b: int)
    requires EmojiNumber(a).Some? && EmojiNumber(a) == EmojiNumber(b)
    ensures a == b
  {
  }

  // ---------------------------------------------------------------------------
  // toOrdinalWithSuffix
  // ---------------------------------------------------------------------------

  /** JavaScript's `%` on integers: the remainder takes the sign of the dividend. */
  function JsRem(a: int, b: int): (r: int)
    requires b > 0
    ensures a >= 0 ==> r == a % b
    ensures -b < r < b
  {
    if a >= 0 then a % b else -((-a) % b)
  }

  const Suffixes: seq<string> := ["th", "st", "nd", "rd"]

  /** `["th", "st", "nd", "rd"][i]`; `None` for `undefined`. */
  function SuffixAt(i: int): Option<string> {
    if 0 <= i < |Suffixes| then Some(Suffixes[i]) else None
  }

  /** The suffix as the two lookups pick it: first by `((n % 100) - 20) % 10`,
      then by `n % 10`, then "th". The first lookup misses for 1..19, so 11, 12
      and 13 fall through to their last digit. */
  function OrdinalSuffixAsWritten(n: int): (s: string)
    ensures s in Suffixes
  {
    match SuffixAt(JsRem(JsRem(n, 100) - 20, 10))
    case Some(s) => s
    case None =>
      match SuffixAt(JsRem(n, 10))
      case Some(s) => s
      case None => "th"
  }

  /** The English ordinal suffix: "th" for 11, 12 and 13 (modulo 100), else
      by the last digit. Negative numbers get "th", as in the code. */
  function OrdinalSuffix(n: int): (s: string)
    ensures s in Suffixes
  {
    if n < 0 || 11 <= n % 100 <= 13 then "th"
    else if n % 10 == 1 then "st"
    else if n % 10 == 2 then "nd"
    else if n % 10 == 3 then "rd"
    else "th"
  }

  /** The two suffix rules agree exactly away from 11, 12 and 13 modulo 100. */
  lemma OrdinalSuffixAsWrittenAgrees(n: int)
    ensures OrdinalSuffixAsWritten(n) == OrdinalSuffix(n) <==> !(n >= 0 && 11 <= n % 100 <= 13)
  {
    if n >= 0 {
      AgreesNonNegative(n);
    } else {
      AgreesNegative(n);
    }
  }

  lemma AgreesNonNegative(n: int)
    requires n >= 0
    ensures OrdinalSuffixAsWritten(n) == OrdinalSuffix(n) <==> !(11 <= n % 100 <= 13)
  {
    var t := n % 100;
    LastDigit(n);
    FirstLookup(t);
  }

  /** The last digit of `n` is the last digit of `n % 100`. */
  lemma LastDigit(n: int)
    requires n >= 0
    ensures JsRem(n, 100) == n % 100 && JsRem(n, 10) == n % 10
    ensures n % 10 == (n % 100) % 10
  {
    var q, t := n / 100, n % 100;
    assert n == 100 * q + t;
    var a, b := t / 10, t % 10;
    assert t == 10 * a + b && 0 <= b < 10;
    var k := 10 * q + a;
    assert n == 10 * k + b;
    assert n / 10 == k;
  }

  /** The index of the first lookup, `((n % 100) - 20) % 10`: the last digit
      from 20 on, 0 for 0 and 10, and negative for 1..9 and 11..19. */
  lemma FirstLookup(t: int)
    requires 0 <= t < 100
    ensures t >= 20 ==> JsRem(t - 20, 10) == t % 10
    ensures t == 0 || t == 10 ==> JsRem(t - 20, 10) == 0
    ensures t != 0 && t != 10 && t < 20 ==> JsRem(t - 20, 10) < 0
  {
    if t >= 20 {
      assert t - 20 == 10 * ((t - 20) / 10) + (t - 20) % 10;
      assert t == 10 * ((t - 20) / 10 + 2) + (t - 20) % 10;
    }
  }

  lemma AgreesNegative(n: int)
    requires n < 0
    ensures OrdinalSuffixAsWritten(n) == OrdinalSuffix(n)
  {
    assert JsRem(JsRem(n, 100) - 20, 10) <= 0;
    assert JsRem(n, 10) <= 0;
  }

  /** The inputs that show the defect: 11st, 12nd, 13rd and 111st. */
  lemma OrdinalTeensAsWritten()
    ensures OrdinalSuffixAsWritten(11) == "st" && OrdinalSuffixAsWritten(12) == "nd"
    ensures OrdinalSuffixAsWritten(13) == "rd" && OrdinalSuffixAsWritten(111) == "st"
    ensures OrdinalSuffix(11) == "th" && OrdinalSuffix(12) == "th" && OrdinalSuffix(13) == "th"
  {
  }

  /** `toOrdinalWithSuffix(n)` as written: "" for a non-finite number,
      otherwise the numeral and the suffix above. */
  function ToOrdinalAsWritten(n: Option<int>): (r: string)
    ensures n.None? <==> r == ""
    ensures n.Some? ==> |r| > |IntToString(n.value)| && r[..|IntToString(n.value)|] == IntToString(n.value)
    ensures n.Some? ==> r[|IntToString(n.value)|..] == OrdinalSuffixAsWritten(n.value)
  {
    match n
    case None => ""
    case Some(k) => IntToString(k) + OrdinalSuffixAsWritten(k)
  }

  /** `toOrdinalWithSuffix(n)` with the English suffix. */
  function ToOrdinal(n: Option<int>): (r: string)
    ensures n.None? <==> r == ""
    ensures n.Some? ==> |r| > |IntToString(n.value)| && r[..|IntToString(n.value)|] == IntToString(n.value)
    ensures n.Some? ==> r[|IntToString(n.value)|..] == OrdinalSuffix(n.value)
  {
    match n
    case None => ""
    case Some(k) => IntToString(k) + OrdinalSuffix(k)
  }

  /** The two ordinals of a number are the same text exactly when the two
      suffix rules agree on it. */
  lemma ToOrdinalsAgree(n: int)
    ensures ToOrdinalAsWritten(Some(n)) == ToOrdinal(Some(n)) <==> !(n >= 0 && 11 <= n % 100 <= 13)
  {
    var d := IntToString(n);
    var a, b := ToOrdinalAsWritten(Some(n)), ToOrdinal(Some(n));
    if a == b {
      assert a[|d|..] == b[|d|..];
    }
    OrdinalSuffixAsWrittenAgrees(n);
  }

  /** The numeral in front of either suffix reads back as the number. */
  lemma ToOrdinalParses(n: nat)
    ensures ParseInt(ToOrdinalAsWritten(Some(n))) == Some(n)
    ensures ParseInt(ToOrdinal(Some(n))) == Some(n)
  {
    var d := IntToString(n);
    var s, t := OrdinalSuffixAsWritten(n), OrdinalSuffix(n);
    assert !IsDigit(s[0]) && !IsDigit(t[0]);
    ParseIntPrefix(d, s);
    ParseIntPrefix(d, t);
  }

  // ---------------------------------------------------------------------------
  // House labels
  // ---------------------------------------------------------------------------

  /** `houseOrder`. */
  const HouseOrder: seq<string> := [
    "First_House", "Second_House", "Third_House", "Fourth_House",
    "Fifth_House", "Sixth_House", "Seventh_House", "Eighth_House",
    "Ninth_House", "Tenth_House", "Eleventh_House", "Twelfth_House"
  ]

  /** `indexOf`: the first position of `x`, or `None` for -1. */
  function IndexOf(s: seq<string>, x: string): (r: Option<nat>)
    ensures r.Some? ==> r.value < |s| && s[r.value] == x
    ensures r.Some? ==> forall j :: 0 <= j < r.value ==> s[j] != x
    ensures r.None? <==> x !in s
  {
    if |s| == 0 then None
    else if s[0] == x then Some(0)
    else match IndexOf(s[1..], x)
      case None => None
      case Some(i) => Some(i + 1)
  }

  lemma HouseOrderDistinct(i: nat, j: nat)
    requires i < j < |HouseOrder|
    ensures HouseOrder[i] != HouseOrder[j]
  {
  }

  /** The long label of a key that is not a house key: every underscore
      turned into a space, and "House" when nothing is left. */
  function PlainHouseLabel(k: string): (r: string)
    ensures k == "" ==> r == "House"
    ensures k != "" ==> |r| == |k| && '_' !in r
  {
    var clean := ReplaceChar(k, '_', ' ');
    if clean == "" then "House" else clean
  }

  /** `formatHouseLabelShort(key)`: the ordinal of the house's number, any
      other key unchanged. */
  function FormatHouseLabelShort(key: string): (r: string)
    ensures key !in HouseOrder ==> r == key
  {
    match IndexOf(HouseOrder, key)
    case Some(i) => ToOrdinalAsWritten(Some(i + 1))
    case None => key
  }

  /** `formatHouseLabel(key)`: "<ordinal> House" for the twelve house keys;
      otherwise the key with every underscore turned into a space, and
      "House" for an absent or empty key. */
  function FormatHouseLabel(key: Option<string>): (r: string)
    ensures key.None? || key == Some("") ==> r == "House"
    ensures key.Some? && key.value !in HouseOrder ==> r == PlainHouseLabel(key.value)
  {
    var k := key.GetOr("");
    match IndexOf(HouseOrder, k)
    case Some(i) => ToOrdinalAsWritten(Some(i + 1)) + " House"
    case None => PlainHouseLabel(k)
  }

  /** The short label with the English suffix. */
  function FormatHouseLabelShortEnglish(key: string): (r: string)
    ensures key !in HouseOrder ==> r == key
  {
    match IndexOf(HouseOrder, key)
    case Some(i) => ToOrdinal(Some(i + 1))
    case None => key
  }

  /** The long label with the English suffix. */
  function FormatHouseLabelEnglish(key: Option<string>): (r: string)
    ensures key.None? || key == Some("") ==> r == "House"
    ensures key.Some? && key.value !in HouseOrder ==> r == PlainHouseLabel(key.value)
  {
    var k := key.GetOr("");
    match IndexOf(HouseOrder, k)
    case Some(i) => ToOrdinal(Some(i + 1)) + " House"
    case None => PlainHouseLabel(k)
  }

  /** An element that does not occur earlier is found at its own position. */
  lemma IndexOfFirst(s: seq<string>, i: nat)
    requires i < |s| && forall j :: 0 <= j < i ==> s[j] != s[i]
    ensures IndexOf(s, s[i]) == Some(i)
  {
    assert s[i] in s;
  }

  lemma HouseIndex(i: nat)
    requires i < |HouseOrder|
    ensures IndexOf(HouseOrder, HouseOrder[i]) == Some(i)
  {
    forall j | 0 <= j < i
      ensures HouseOrder[j] != HouseOrder[i]
    {
      HouseOrderDistinct(j, i);
    }
    IndexOfFirst(HouseOrder, i);
  }

  /** As written, the i-th house is labelled with the ordinal of i + 1, which
      reads back as i + 1, and the long label is the short one and " House". */
  lemma HouseLabels(i: nat)
    requires i < |HouseOrder|
    ensures FormatHouseLabelShort(HouseOrder[i]) == ToOrdinalAsWritten(Some(i + 1))
    ensures FormatHouseLabel(Some(HouseOrder[i])) == ToOrdinalAsWritten(Some(i + 1)) + " House"
    ensures ParseInt(FormatHouseLabelShort(HouseOrder[i])) == Some(i + 1)
  {
    HouseIndex(i);
    ToOrdinalParses(i + 1);
  }

  /** The same with the English suffix. */
  lemma HouseLabelsEnglish(i: nat)
    requires i < |HouseOrder|
    ensures FormatHouseLabelShortEnglish(HouseOrder[i]) == ToOrdinal(Some(i + 1))
    ensures FormatHouseLabelEnglish(Some(HouseOrder[i])) == ToOrdinal(Some(i + 1)) + " House"
    ensures ParseInt(FormatHouseLabelShortEnglish(HouseOrder[i])) == Some(i + 1)
  {
    HouseIndex(i);
    ToOrdinalParses(i + 1);
  }

  /** The labels as written and the English labels differ on exactly two
      houses, the eleventh and the twelfth. */
  lemma HouseLabelsAgree(i: nat)
    requires i < |HouseOrder|
    ensures FormatHouseLabelShort(HouseOrder[i]) == FormatHouseLabelShortEnglish(HouseOrder[i]) <==> i != 10 && i != 11
    ensures FormatHouseLabel(Some(HouseOrder[i])) == FormatHouseLabelEnglish(Some(HouseOrder[i])) <==> i != 10 && i != 11
  {
    HouseLabels(i);
    HouseLabelsEnglish(i);
    ToOrdinalsAgree(i + 1);
    assert i + 1 <= 12;
    SmallRem(i + 1);
    var a, b := ToOrdinalAsWritten(Some(i + 1)), ToOrdinal(Some(i + 1));
    if a + " House" == b + " House" {
      assert a == (a + " House")[..|a|];
      assert |a| == |b|;
      assert b == (b + " House")[..|b|];
    }
  }

  lemma SmallRem(n: int)
    requires 0 <= n < 100
    ensures n % 100 == n
  {
  }

  /** As written, the eleventh house is "11st" where English has "11th". */
  lemma EleventhHouseAsWritten()
    ensures FormatHouseLabelShort(HouseOrder[10]) == "11st"
    ensures FormatHouseLabelShortEnglish(HouseOrder[10]) == "11th"
  {
    HouseLabels(10);
    HouseLabelsEnglish(10);
    OrdinalsOfTeens();
  }

  /** As written, the twelfth house is "12nd House". */
  lemma TwelfthHouseAsWritten()
    ensures FormatHouseLabel(Some(HouseOrder[11])) == "12nd House"
  {
    HouseLabels(11);
    OrdinalsOfTeens();
    TwelfthLabelText();
  }

  lemma TwelfthLabelText()
    ensures "12nd" + " House" == "12nd House"
  {
    var s := "12nd" + " House";
    assert |s| == 10;
    forall k | 0 <= k < 10
      ensures s[k] == "12nd House"[k]
    {
    }
  }

  /** The ordinals of 11 and 12, as written and in English. */
  lemma OrdinalsOfTeens()
    ensures ToOrdinalAsWritten(Some(11)) == "11st" && ToOrdinalAsWritten(Some(12)) == "12nd"
    ensures ToOrdinal(Some(11)) == "11th"
  {
    assert IntToString(11) == "11";
    assert IntToString(12) == "12";
    OrdinalTeensAsWritten();
  }

  // ---------------------------------------------------------------------------
  // capitalise
  // ---------------------------------------------------------------------------

  /** `capitalise(str)`: the first character upper-cased, the rest untouched;
      "" is returned as it is. */
  function Capitalise(s: string): (r: string)
    ensures |r| == |s|
    ensures |s| > 0 ==> r[0] == UpperChar(s[0]) && r[1..] == s[1..]
  {
    if |s| == 0 then s else [UpperChar(s[0])] + s[1..]
  }

  lemma CapitaliseIdempotent(s: string)
    ensures Capitalise(Capitalise(s)) == Capitalise(s)
  {
  }
}
