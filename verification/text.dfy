/** Character and string primitives used by both the Python engine and the
    browser client: trimming, ASCII case mapping, splitting, the simplified
    number parsers and printers, and the lexicographic order on strings. */
module Text {
  import opened Wrappers

  // ---------------------------------------------------------------------------
  // Whitespace and trimming
  // ---------------------------------------------------------------------------

  /** The whitespace characters `trim`, `strip` and `\s` recognise in this model. */
  predicate IsSpace(c: char) {
    c == ' ' || c == '\t' || c == '\n' || c == '\r' || c == '\U{B}' || c == '\U{C}'
  }

  /** No whitespace at either end. */
  predicate Trimmed(s: string) {
    |s| == 0 || (!IsSpace(s[0]) && !IsSpace(s[|s| - 1]))
  }

  /** Drops leading whitespace. */
  function TrimStart(s: string): (r: string)
    ensures |r| <= |s| && r == s[|s| - |r|..]
    ensures forall i :: 0 <= i < |s| - |r| ==> IsSpace(s[i])
    ensures |r| == 0 || !IsSpace(r[0])
  {
    if |s| > 0 && IsSpace(s[0]) then TrimStart(s[1..]) else s
  }

  /** Drops trailing whitespace. */
  function TrimEnd(s: string): (r: string)
    ensures |r| <= |s| && r == s[..|r|]
    ensures forall i :: |r| <= i < |s| ==> IsSpace(s[i])
    ensures |r| == 0 || !IsSpace(r[|r| - 1])
  {
    if |s| > 0 && IsSpace(s[|s| - 1]) then TrimEnd(s[..|s| - 1]) else s
  }

  /** JavaScript's `String.prototype.trim` and Python's argument-less `str.strip`. */
  function Trim(s: string): (r: string)
    ensures Trimmed(r)
    ensures |r| <= |s|
    ensures Trimmed(s) ==> r == s
    ensures forall c :: c in r ==> c in s
  {
    var e := TrimEnd(s);
    var r := TrimStart(e);
    assert forall c :: c in r ==> c in e;
    assert forall c :: c in e ==> c in s;
    r
  }

  /** Text that starts and ends with non-whitespace is trimmed, whatever lies
      between. */
  lemma TrimmedConcat(a: string, mid: string, b: string)
    requires |a| > 0 && |b| > 0 && !IsSpace(a[0]) && !IsSpace(b[|b| - 1])
    ensures Trimmed(a + mid + b) && Trim(a + mid + b) == a + mid + b
  {
    var s := a + mid + b;
    assert s[0] == a[0] && s[|s| - 1] == b[|b| - 1];
  }

  /** A string whose last character is not whitespace keeps its text when a
      single space is appended and the result is trimmed again. */
  lemma TrimAroundSpace(a: string)
    requires Trimmed(a) && |a| > 0
    ensures Trim(a + " ") == a
    ensures Trim(" " + a) == a
  {
    assert TrimEnd(a + " ") == TrimEnd(a) by {
      assert (a + " ")[..|a + " "| - 1] == a;
    }
    assert TrimStart(" " + a) == TrimStart(a) by {
      assert (" " + a)[1..] == a;
    }
  }

  // ---------------------------------------------------------------------------
  // Case mapping and character replacement (ASCII only)
  // ---------------------------------------------------------------------------

  function LowerChar(c: char): char {
    if 'A' <= c <= 'Z' then (c as int + 32) as char else c
  }

  function UpperChar(c: char): char {
    if 'a' <= c <= 'z' then (c as int - 32) as char else c
  }

  /** `toLowerCase` / `lower` restricted to the ASCII letters. */
  function Lower(s: string): (r: string)
    ensures |r| == |s|
    ensures forall i :: 0 <= i < |s| ==> r[i] == LowerChar(s[i])
  {
    if |s| == 0 then "" else [LowerChar(s[0])] + Lower(s[1..])
  }

  /** `toUpperCase` restricted to the ASCII letters. */
  function Upper(s: string): (r: string)
    ensures |r| == |s|
    ensures forall i :: 0 <= i < |s| ==> r[i] == UpperChar(s[i])
  {
    if |s| == 0 then "" else [UpperChar(s[0])] + Upper(s[1..])
  }

  /** No ASCII lower-case letter occurs. */
  predicate NoLowerCase(s: string) {
    forall i :: 0 <= i < |s| ==> !('a' <= s[i] <= 'z')
  }

  /** Every occurrence of `a` replaced by `b` (`str.replace(a, b)` for one
      character, JavaScript's `replace(/a/g, b)`). */
  function ReplaceChar(s: string, a: char, b: char): (r: string)
    ensures |r| == |s|
    ensures forall i :: 0 <= i < |s| ==> r[i] == (if s[i] == a then b else s[i])
  {
    if |s| == 0 then "" else [if s[0] == a then b else s[0]] + ReplaceChar(s[1..], a, b)
  }

  /** The first non-empty string, or "" (JavaScript's `a || b || … || ""`). */
  function FirstTruthy(candidates: seq<string>): (r: string)
    ensures r == "" || r in candidates
    ensures r == "" <==> forall i :: 0 <= i < |candidates| ==> candidates[i] == ""
    ensures r != "" ==> exists i :: 0 <= i < |candidates| && candidates[i] == r &&
                                    forall j :: 0 <= j < i ==> candidates[j] == ""
  {
    if |candidates| == 0 then ""
    else if candidates[0] != "" then candidates[0]
    else FirstTruthy(candidates[1..])
  }

  // ---------------------------------------------------------------------------
  // Splitting on one separator character
  // ---------------------------------------------------------------------------

  /** The inverse of `Split`: parts glued back with the separator between them. */
  function Join(parts: seq<string>, sep: char): string {
    if |parts| == 0 then ""
    else if |parts| == 1 then parts[0]
    else parts[0] + [sep] + Join(parts[1..], sep)
  }

  /** `s.split(sep)` in JavaScript and Python: never empty, and no part holds
      the separator; `SplitJoin` shows the parts glue back into `s`. */
  function Split(s: string, sep: char): (parts: seq<string>)
    ensures |parts| >= 1
    ensures forall i :: 0 <= i < |parts| ==> sep !in parts[i]
  {
    if |s| == 0 then [""]
    else
      var rest := Split(s[1..], sep);
      if s[0] == sep then [""] + rest
      else
        assert forall c :: c in [s[0]] + rest[0] ==> c == s[0] || c in rest[0];
        [[s[0]] + rest[0]] + rest[1..]
  }

  /** Joining the parts of a split with the separator rebuilds the text. */
  lemma {:induction false} SplitJoin(s: string, sep: char)
    ensures Join(Split(s, sep), sep) == s
    decreases |s|
  {
    if |s| > 0 {
      SplitJoin(s[1..], sep);
      var rest := Split(s[1..], sep);
      if s[0] == sep {
        assert ([""] + rest)[1..] == rest;
        assert Join([""] + rest, sep) == "" + [sep] + Join(rest, sep);
      } else {
        var parts := [[s[0]] + rest[0]] + rest[1..];
        if |rest| > 1 {
          assert parts[1..] == rest[1..];
          assert Join(parts, sep) == [s[0]] + rest[0] + [sep] + Join(rest[1..], sep);
        }
        assert Join(parts, sep) == [s[0]] + Join(rest, sep);
      }
    }
  }

  /** Splitting text that starts with a separator-free prefix `a`. */
  lemma {:induction false} SplitPrefix(a: string, t: string, sep: char)
    requires sep !in a
    ensures Split(a + t, sep) == [a + Split(t, sep)[0]] + Split(t, sep)[1..]
    decreases |a|
  {
    var st := Split(t, sep);
    if |a| == 0 {
      assert a + t == t;
      assert a + st[0] == st[0];
      assert [st[0]] + st[1..] == st;
    } else {
      SplitPrefix(a[1..], t, sep);
      var s := a + t;
      assert s[0] == a[0] && s[0] != sep;
      assert s[1..] == a[1..] + t;
      var rest := Split(s[1..], sep);
      assert rest == [a[1..] + st[0]] + st[1..];
      assert Split(s, sep) == [[s[0]] + rest[0]] + rest[1..];
      assert [a[0]] + (a[1..] + st[0]) == a + st[0];
    }
  }

  /** Splitting `a sep b` with separator-free `a` and `b` gives exactly `[a, b]`. */
  lemma SplitTwo(a: string, b: string, sep: char)
    requires sep !in a && sep !in b
    ensures Split(a + [sep] + b, sep) == [a, b]
  {
    SplitOne(b, sep);
    var t := [sep] + b;
    assert t[0] == sep && t[1..] == b;
    assert Split(t, sep) == [""] + Split(b, sep);
    SplitPrefix(a, t, sep);
    assert a + [sep] + b == a + t;
    assert a + "" == a;
  }

  /** Separator-free text splits into itself alone. */
  lemma SplitOne(b: string, sep: char)
    requires sep !in b
    ensures Split(b, sep) == [b]
  {
    SplitPrefix(b, "", sep);
    assert b + "" == b;
    assert Split("", sep) == [""];
  }

  /** Splitting `a sep b sep c` with separator-free parts gives `[a, b, c]`. */
  lemma SplitThree(a: string, b: string, c: string, sep: char)
    requires sep !in a && sep !in b && sep !in c
    ensures Split(a + [sep] + b + [sep] + c, sep) == [a, b, c]
  {
    var tail := b + [sep] + c;
    SplitTwo(b, c, sep);
    var t := [sep] + tail;
    assert t[0] == sep && t[1..] == tail;
    assert Split(t, sep) == [""] + [b, c];
    SplitPrefix(a, t, sep);
    assert a + [sep] + b + [sep] + c == a + t;
    assert a + "" == a;
  }

  /** "a-b-c" with dash-free parts and non-blank ends is trimmed and splits
      back into its parts. */
  lemma DashedText(a: string, b: string, c: string)
    requires '-' !in a && '-' !in b && '-' !in c
    requires |a| > 0 && |c| > 0 && !IsSpace(a[0]) && !IsSpace(c[|c| - 1])
    ensures Trim(a + ['-'] + b + ['-'] + c) == a + ['-'] + b + ['-'] + c
    ensures Split(a + ['-'] + b + ['-'] + c, '-') == [a, b, c]
  {
    var s := a + ['-'] + b + ['-'] + c;
    assert s[0] == a[0] && s[|s| - 1] == c[|c| - 1];
    assert Trimmed(s);
    SplitThree(a, b, c, '-');
  }

  // ---------------------------------------------------------------------------
  // Tokens separated by runs of commas and whitespace
  // ---------------------------------------------------------------------------

  predicate IsListSep(c: char) {
    c == ',' || IsSpace(c)
  }

  predicate NoListSep(s: string) {
    forall i :: 0 <= i < |s| ==> !IsListSep(s[i])
  }

  /** Maximal runs of non-separator characters, scanning with the token read so far. */
  function TokensFrom(s: string, cur: string): (r: seq<string>)
    requires NoListSep(cur)
    ensures forall i :: 0 <= i < |r| ==> |r[i]| > 0 && NoListSep(r[i])
  {
    if |s| == 0 then (if |cur| > 0 then [cur] else [])
    else if IsListSep(s[0]) then (if |cur| > 0 then [cur] else []) + TokensFrom(s[1..], "")
    else TokensFrom(s[1..], cur + [s[0]])
  }

  /** JavaScript's `s.split(/[,\s]+/).filter(Boolean)`. */
  function Tokens(s: string): (r: seq<string>)
    ensures forall i :: 0 <= i < |r| ==> |r[i]| > 0 && NoListSep(r[i])
  {
    TokensFrom(s, "")
  }

  lemma {:induction false} TokensFromWord(a: string, t: string, cur: string)
    requires NoListSep(cur) && NoListSep(a)
    ensures TokensFrom(a + t, cur) == TokensFrom(t, cur + a)
    decreases |a|
  {
    if |a| > 0 {
      assert (a + t)[0] == a[0];
      assert (a + t)[1..] == a[1..] + t;
      TokensFromWord(a[1..], t, cur + [a[0]]);
      assert cur + [a[0]] + a[1..] == cur + a;
    } else {
      assert a + t == t;
      assert cur + a == cur;
    }
  }

  /** Two words joined by a comma and a space split back into the two words. */
  lemma TokensOfPair(a: string, b: string)
    requires |a| > 0 && |b| > 0 && NoListSep(a) && NoListSep(b)
    ensures Tokens(a + ", " + b) == [a, b]
  {
    TokensFromWord(a, ", " + b, "");
    assert a + ", " + b == a + (", " + b);
    assert "" + a == a;
    assert (", " + b)[1..] == " " + b;
    assert (" " + b)[1..] == b;
    TokensFromWord(b, "", "");
    assert b + "" == b;
    assert "" + b == b;
  }

  // ---------------------------------------------------------------------------
  // Decimal digits, printing and the simplified parsers
  // ---------------------------------------------------------------------------

  predicate IsDigit(c: char) {
    '0' <= c <= '9'
  }

  predicate AllDigits(s: string) {
    forall i :: 0 <= i < |s| ==> IsDigit(s[i])
  }

  function DigitValue(c: char): nat
    requires IsDigit(c)
  {
    c as int - '0' as int
  }

  function DigitChar(d: nat): (c: char)
    requires d < 10
    ensures IsDigit(c) && DigitValue(c) == d
  {
    ('0' as int + d) as char
  }

  /** The value of a string of decimal digits, most significant first. */
  function DigitsValue(s: string): nat
    requires AllDigits(s)
  {
    if |s| == 0 then 0 else DigitsValue(s[..|s| - 1]) * 10 + DigitValue(s[|s| - 1])
  }

  /** A leading zero does not change the value of a digit string. */
  lemma {:induction false} DigitsValueLeadingZero(s: string)
    ensures AllDigits(s) ==> AllDigits("0" + s) && DigitsValue("0" + s) == DigitsValue(s)
    decreases |s|
  {
    if |s| > 0 && AllDigits(s) {
      DigitsValueLeadingZero(s[..|s| - 1]);
      assert ("0" + s)[..|"0" + s| - 1] == "0" + s[..|s| - 1];
    }
  }

  /** Shortest decimal numeral of `n`, as `String(n)` prints a non-negative integer. */
  function NatToString(n: nat): (s: string)
    ensures |s| >= 1 && AllDigits(s)
    ensures DigitsValue(s) == n
    ensures (|s| == 1) <==> n < 10
  {
    if n < 10 then [DigitChar(n)]
    else
      var s := NatToString(n / 10) + [DigitChar(n % 10)];
      assert s[..|s| - 1] == NatToString(n / 10);
      s
  }

  /** `String(n)` for an integer: a minus sign before negative numbers. */
  function IntToString(n: int): (s: string)
    ensures |s| >= 1
    ensures n >= 0 ==> s == NatToString(n)
    ensures n < 0 ==> s[0] == '-' && s[1..] == NatToString(-n)
  {
    if n < 0 then "-" + NatToString(-n) else NatToString(n)
  }

  /** Length of the run of digits at the start of `s`. */
  function DigitRun(s: string): (n: nat)
    ensures n <= |s|
    ensures AllDigits(s[..n])
    ensures n < |s| ==> !IsDigit(s[n])
  {
    if |s| == 0 || !IsDigit(s[0]) then 0
    else
      var n := 1 + DigitRun(s[1..]);
      assert s[..n] == [s[0]] + s[1..][..n - 1];
      n
  }

  lemma DigitRunAll(s: string)
    requires AllDigits(s)
    ensures DigitRun(s) == |s|
  {
  }

  /** The signed integer read from a digit prefix after an optional sign. */
  function SignedDigits(t: string): Option<int> {
    var neg := |t| > 0 && t[0] == '-';
    var body := if |t| > 0 && (t[0] == '-' || t[0] == '+') then t[1..] else t;
    var n := DigitRun(body);
    if n == 0 then None
    else
      var v: int := DigitsValue(body[..n]);
      Some(if neg then -v else v)
  }

  /** JavaScript's `parseInt(s, 10)`, simplified: leading whitespace, an optional
      sign and the longest digit prefix; `None` stands for `NaN`. */
  function ParseInt(s: string): Option<int> {
    SignedDigits(TrimStart(s))
  }

  /** Digit strings parse to their value; trailing text after a digit prefix
      is ignored. */
  lemma ParseIntDigits(s: string)
    requires |s| > 0 && AllDigits(s)
    ensures ParseInt(s) == Some(DigitsValue(s))
  {
    assert !IsSpace(s[0]);
    assert TrimStart(s) == s;
    assert !(s[0] == '-' || s[0] == '+');
    DigitRunAll(s);
    assert s[..|s|] == s;
    assert SignedDigits(s) == Some(DigitsValue(s));
  }

  lemma {:induction false} DigitRunAppend(d: string, t: string)
    requires AllDigits(d) && (|t| == 0 || !IsDigit(t[0]))
    ensures DigitRun(d + t) == |d|
    decreases |d|
  {
    if |d| > 0 {
      DigitRunAppend(d[1..], t);
      assert (d + t)[1..] == d[1..] + t;
    } else {
      assert d + t == t;
    }
  }

  /** A digit string followed by text that does not start with a digit parses
      to the digits' value. */
  lemma ParseIntPrefix(d: string, t: string)
    requires |d| > 0 && AllDigits(d) && (|t| == 0 || !IsDigit(t[0]))
    ensures ParseInt(d + t) == Some(DigitsValue(d))
  {
    var s := d + t;
    assert !IsSpace(s[0]) && TrimStart(s) == s;
    assert !(s[0] == '-' || s[0] == '+');
    DigitRunAppend(d, t);
    assert s[..|d|] == d;
  }

  /** `parseInt(String(n))` gives `n` back. */
  lemma ParseIntOfIntToString(n: int)
    ensures ParseInt(IntToString(n)) == Some(n)
  {
    var s := IntToString(n);
    if n >= 0 {
      ParseIntDigits(s);
    } else {
      assert TrimStart(s) == s by { assert !IsSpace(s[0]); }
      var body := s[1..];
      DigitRunAll(body);
      assert body[..|body|] == body;
    }
  }

  /** `String(value).padStart(2, "0")`. */
  function Pad(n: int): (s: string)
    ensures |s| >= 2
    ensures n >= 0 ==> AllDigits(s) && DigitsValue(s) == n
    ensures 0 <= n < 100 ==> |s| == 2
    ensures n >= 10 ==> s == IntToString(n)
  {
    var t := IntToString(n);
    if |t| >= 2 then t
    else
      DigitsValueLeadingZero(t);
      "0" + t
  }

  /** A padded non-negative number parses back to itself. */
  /** A padded number is digits only: no separator, no blank at either end. */
  lemma PadPlain(n: nat)
    ensures '-' !in Pad(n) && ':' !in Pad(n)
    ensures !IsSpace(Pad(n)[0]) && !IsSpace(Pad(n)[|Pad(n)| - 1])
  {
    var s := Pad(n);
    assert IsDigit(s[0]) && IsDigit(s[|s| - 1]);
    assert forall i :: 0 <= i < |s| ==> IsDigit(s[i]);
  }

  lemma ParseIntOfPad(n: int)
    requires n >= 0
    ensures ParseInt(Pad(n)) == Some(n)
  {
    ParseIntDigits(Pad(n));
  }

  /** `x` divided by ten `k` times: the value of `x` with the decimal point
      moved `k` places to the left. */
  function Shift(x: real, k: nat): (r: real)
    ensures x >= 0.0 ==> 0.0 <= r <= x
  {
    if k == 0 then x else Shift(x, k - 1) / 10.0
  }

  /** A decimal numeral `[sign] digits [. digits]` at the start of `s`, with at
      least one digit: its value and how many characters it spans. */
  function DecimalPrefix(s: string): (r: Option<(real, nat)>)
    ensures r.Some? ==> r.value.1 <= |s|
  {
    var neg := |s| > 0 && s[0] == '-';
    var signLen := if |s| > 0 && (s[0] == '-' || s[0] == '+') then 1 else 0;
    var body := s[signLen..];
    var i := DigitRun(body);
    var rest := body[i..];
    var hasDot := |rest| > 0 && rest[0] == '.';
    var f := if hasDot then DigitRun(rest[1..]) else 0;
    if i == 0 && f == 0 then None
    else
      var whole := DigitsValue(body[..i]) as real;
      var frac := if hasDot then Shift(DigitsValue(rest[1..][..f]) as real, f) else 0.0;
      var v := whole + frac;
      Some((if neg then -v else v, signLen + i + (if hasDot then 1 + f else 0)))
  }

  /** JavaScript's `parseFloat`, simplified to decimal numerals: leading
      whitespace skipped, trailing text ignored; `None` stands for `NaN`. */
  function ParseFloat(s: string): Option<real> {
    match DecimalPrefix(TrimStart(s))
    case Some(p) => Some(p.0)
    case None => None
  }

  /** Digit strings read as their value. */
  lemma ParseFloatDigits(s: string)
    requires |s| > 0 && AllDigits(s)
    ensures ParseFloat(s) == Some(DigitsValue(s) as real)
  {
    assert !IsSpace(s[0]);
    assert TrimStart(s) == s;
    assert !(s[0] == '-' || s[0] == '+');
    DigitRunAll(s);
    assert s[..|s|] == s;
  }

  /** Python's `float(text)`, simplified to decimal numerals: surrounding
      whitespace allowed, nothing else; `None` stands for `ValueError`. */
  function PyFloat(s: string): Option<real> {
    var t := Trim(s);
    match DecimalPrefix(t)
    case Some(p) => if p.1 == |t| then Some(p.0) else None
    case None => None
  }

  // ---------------------------------------------------------------------------
  // Lexicographic order (Python's `<` on str, JavaScript's `<` on strings)
  // ---------------------------------------------------------------------------

  predicate LexLess(a: string, b: string) {
    if |a| == 0 then |b| > 0
    else if |b| == 0 then false
    else if a[0] != b[0] then a[0] < b[0]
    else LexLess(a[1..], b[1..])
  }

  lemma LexIrreflexive(a: string)
    ensures !LexLess(a, a)
  {
  }

  lemma LexAsymmetric(a: string, b: string)
    ensures !(LexLess(a, b) && LexLess(b, a))
  {
  }

  lemma LexTransitive(a: string, b: string, c: string)
    requires LexLess(a, b) && LexLess(b, c)
    ensures LexLess(a, c)
  {
  }

  lemma {:induction a, b} LexTotal(a: string, b: string)
    ensures a == b || LexLess(a, b) || LexLess(b, a)
  {
    if |a| > 0 && |b| > 0 && a[0] == b[0] {
      LexTotal(a[1..], b[1..]);
      if a[1..] == b[1..] {
        assert a == [a[0]] + a[1..] && b == [b[0]] + b[1..];
      }
    }
  }

  /** `Math.max(lo, Math.min(hi, x))`. */
  function Clamp(x: int, lo: int, hi: int): (r: int)
    requires lo <= hi
    ensures lo <= r <= hi
    ensures lo <= x <= hi ==> r == x
  {
    if x < lo then lo else if x > hi then hi else x
  }
}
