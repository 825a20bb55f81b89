/**
 * File and directory names of the transcripts: the sanitised title, the
 * zero-padded date stamp, `YYYY_MM_DD_<title>.txt` and the `YYYY_MM` directory.
 *
 * Unicode normalisation to Normalization Form KC (Unicode Standard Annex #15)
 * needs the Unicode tables; it is the parameter `nfkc`, about which nothing is
 * assumed.
 */
module Naming {
  import opened Wrappers

  /** The number of characters a sanitised title keeps. */
  const MaxTitleLength: nat := 140

  function Min(a: nat, b: nat): nat {
    if a <= b then a else b
  }

  /** The characters Python's `\s` matches in a `str` pattern: those for which
      `str.isspace()` holds. */
  predicate IsWhitespace(c: char) {
    || ('\t' <= c <= '\r')
    || ('\U{1C}' <= c <= '\U{1F}')
    || c == ' '
    || c == '\U{85}'
    || c == '\U{A0}'
    || c == '\U{1680}'
    || ('\U{2000}' <= c <= '\U{200A}')
    || c == '\U{2028}'
    || c == '\U{2029}'
    || c == '\U{202F}'
    || c == '\U{205F}'
    || c == '\U{3000}'
  }

  /** The character class `[<>:"/\\|?*\x00-\x1F\s]`. */
  predicate IsReplaced(c: char) {
    c in "<>:\"/\\|?*" || c <= '\U{1F}' || IsWhitespace(c)
  }

  function ReplaceChar(c: char): char {
    if IsReplaced(c) then '_' else c
  }

  /** `re.sub(..., '_', s)`: every character of the class becomes an
      underscore, one for one, and every other character stays. */
  function ReplaceAll(s: string): (r: string)
    ensures |r| == |s|
    ensures forall i :: 0 <= i < |s| ==> r[i] == ReplaceChar(s[i])
  {
    if s == [] then [] else [ReplaceChar(s[0])] + ReplaceAll(s[1..])
  }

  /** The replacement followed by `[:140]`. */
  function ReplaceAndTruncate(s: string): (r: string)
    ensures |r| == Min(|s|, MaxTitleLength)
    ensures forall i :: 0 <= i < |r| ==> r[i] == ReplaceChar(s[i])
    ensures forall i :: 0 <= i < |r| ==> !IsReplaced(r[i])
  {
    var t := ReplaceAll(s);
    if |t| <= MaxTitleLength then t else t[..MaxTitleLength]
  }

  /** `sanitize_title`. */
  function SanitizeTitle(nfkc: string -> string, title: string): (r: string)
    ensures |r| == Min(|nfkc(title)|, MaxTitleLength)
    ensures forall i :: 0 <= i < |r| ==> !IsReplaced(r[i])
  {
    ReplaceAndTruncate(nfkc(title))
  }

  /** Replacing and truncating a second time changes nothing. */
  lemma ReplaceAndTruncateIdempotent(s: string)
    ensures ReplaceAndTruncate(ReplaceAndTruncate(s)) == ReplaceAndTruncate(s)
  {
    var r := ReplaceAndTruncate(s);
    var rr := ReplaceAndTruncate(r);
    assert |rr| == |r|;
    forall i | 0 <= i < |r|
      ensures rr[i] == r[i]
    {
    }
  }

  /** Sanitising a sanitised title gives it back, for any normalisation that
      leaves the sanitised title as it is (Normalization Form KC is itself
      idempotent). */
  lemma SanitizeTitleIdempotent(nfkc: string -> string, title: string)
    requires nfkc(SanitizeTitle(nfkc, title)) == SanitizeTitle(nfkc, title)
    ensures SanitizeTitle(nfkc, SanitizeTitle(nfkc, title)) == SanitizeTitle(nfkc, title)
  {
    ReplaceAndTruncateIdempotent(nfkc(title));
  }

  function Pow10(n: nat): (r: nat)
    ensures r >= 1
  {
    if n == 0 then 1 else 10 * Pow10(n - 1)
  }

  predicate IsDigit(c: char) {
    '0' <= c <= '9'
  }

  predicate AllDigits(s: string) {
    forall i :: 0 <= i < |s| ==> IsDigit(s[i])
  }

  /** The number a string of decimal digits denotes. */
  function DecimalValue(s: string): nat
    requires AllDigits(s)
  {
    if s == [] then 0 else DecimalValue(s[..|s| - 1]) * 10 + (s[|s| - 1] - '0') as nat
  }

  /** `n` written in decimal with exactly `width` digits, leading zeros
      included, as `strftime` writes `%Y`, `%m` and `%d`. */
  function PadDecimal(n: nat, width: nat): (s: string)
    requires n < Pow10(width)
    ensures |s| == width
    ensures AllDigits(s)
    ensures DecimalValue(s) == n
    decreases width
  {
    if width == 0 then ""
    else
      var d := (n % 10) as char + '0';
      var s := PadDecimal(n / 10, width - 1) + [d];
      assert s[..|s| - 1] == PadDecimal(n / 10, width - 1);
      s
  }

  /** A calendar date as the program's `datetime` holds it. */
  datatype Date = Date(year: int, month: int, day: int)

  predicate ValidDate(d: Date) {
    1 <= d.year <= 9999 && 1 <= d.month <= 12 && 1 <= d.day <= 31
  }

  /** `date.strftime('%Y_%m_%d')`. */
  function DateStamp(d: Date): (s: string)
    requires ValidDate(d)
    ensures |s| == 10 && s[4] == '_' && s[7] == '_'
    ensures AllDigits(s[..4]) && DecimalValue(s[..4]) == d.year
    ensures AllDigits(s[5..7]) && DecimalValue(s[5..7]) == d.month
    ensures AllDigits(s[8..10]) && DecimalValue(s[8..10]) == d.day
  {
    var y, m, dd := PadDecimal(d.year, 4), PadDecimal(d.month, 2), PadDecimal(d.day, 2);
    StampSlices(y, m, dd);
    y + "_" + m + "_" + dd
  }

  lemma StampSlices(y: string, m: string, dd: string)
    requires |y| == 4 && |m| == 2 && |dd| == 2
    ensures var s := y + "_" + m + "_" + dd;
      s[..4] == y && s[4] == '_' && s[5..7] == m && s[7] == '_' && s[8..10] == dd
  {
  }

  /** `date.strftime("%Y_%m")`: the name of the directory `create_directory`
      makes for the month of `d`. */
  function MonthDirectoryName(d: Date): (s: string)
    requires ValidDate(d)
    ensures |s| == 7 && s[4] == '_'
    ensures AllDigits(s[..4]) && DecimalValue(s[..4]) == d.year
    ensures AllDigits(s[5..]) && DecimalValue(s[5..]) == d.month
  {
    var y, m := PadDecimal(d.year, 4), PadDecimal(d.month, 2);
    var s := y + "_" + m;
    assert s[..4] == y && s[5..] == m;
    s
  }

  /** The file name `create_file_name` puts under the directory it is given. */
  function CreateFileName(nfkc: string -> string, title: string, d: Date): (name: string)
    requires ValidDate(d)
    ensures |name| == 15 + |SanitizeTitle(nfkc, title)| <= 15 + MaxTitleLength
  {
    DateStamp(d) + "_" + SanitizeTitle(nfkc, title) + ".txt"
  }

  /** Reads a date stamp and title back out of a file name of the shape
      `YYYY_MM_DD_<title>.txt`. */
  function ParseFileName(name: string): Option<(Date, string)> {
    if |name| >= 15
       && AllDigits(name[..4]) && name[4] == '_'
       && AllDigits(name[5..7]) && name[7] == '_'
       && AllDigits(name[8..10]) && name[10] == '_'
       && name[|name| - 4..] == ".txt"
    then
      var d := Date(DecimalValue(name[..4]), DecimalValue(name[5..7]), DecimalValue(name[8..10]));
      Some((d, name[11..|name| - 4]))
    else None
  }

  /** Where the pieces of a `YYYY_MM_DD_<title>.txt` name stand. */
  lemma FileNameSlices(y: string, mo: string, dd: string, t: string)
    requires |y| == 4 && |mo| == 2 && |dd| == 2
    ensures var name := y + "_" + mo + "_" + dd + "_" + t + ".txt";
      && |name| == 15 + |t|
      && name[..4] == y && name[4] == '_'
      && name[5..7] == mo && name[7] == '_'
      && name[8..10] == dd && name[10] == '_'
      && name[11..|name| - 4] == t
      && name[|name| - 4..] == ".txt"
      && name[..7] == y + "_" + mo
  {
  }

  /** A file name gives back the date and the sanitised title it was made from. */
  lemma FileNameRoundTrip(nfkc: string -> string, title: string, d: Date)
    requires ValidDate(d)
    ensures ParseFileName(CreateFileName(nfkc, title, d)) == Some((d, SanitizeTitle(nfkc, title)))
  {
    var y, m, dd := PadDecimal(d.year, 4), PadDecimal(d.month, 2), PadDecimal(d.day, 2);
    var t := SanitizeTitle(nfkc, title);
    FileNameSlices(y, m, dd, t);
  }

  /** Two conversations get the same file name exactly when they have the same
      date and the same sanitised title: names are not unique, since titles
      that differ only after their 140th character, or only in replaced
      characters, collide. */
  lemma FileNameCollision(nfkc: string -> string, title1: string, d1: Date, title2: string, d2: Date)
    requires ValidDate(d1) && ValidDate(d2)
    ensures CreateFileName(nfkc, title1, d1) == CreateFileName(nfkc, title2, d2) <==>
      d1 == d2 && SanitizeTitle(nfkc, title1) == SanitizeTitle(nfkc, title2)
  {
    FileNameRoundTrip(nfkc, title1, d1);
    FileNameRoundTrip(nfkc, title2, d2);
  }

  /** The file name starts with the name of its month's directory. */
  lemma FileNameInMonthDirectory(nfkc: string -> string, title: string, d: Date)
    requires ValidDate(d)
    ensures CreateFileName(nfkc, title, d)[..7] == MonthDirectoryName(d)
  {
    FileNameSlices(PadDecimal(d.year, 4), PadDecimal(d.month, 2), PadDecimal(d.day, 2), SanitizeTitle(nfkc, title));
  }
}
