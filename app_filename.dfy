/** The suggested download filename of the scraper's web client
    (`generateFilenameFromUrl`): a base name taken from the last path segments
    of the scanned URL, a `YYYY-MM-DD` date and the `.csv` extension, with a
    fixed base name when the URL cannot be parsed. */
module AppFilename {
  import opened JsText
  import opened Decimal

  datatype Option<T> = None | Some(value: T)

  /** The outcome of `new URL(url)`: the parsed URL's `pathname`, or the
      exception the constructor throws on a malformed URL. */
  datatype UrlParse = Parsed(pathname: string) | ParseFailed

  /** The local calendar fields of `new Date()`: `getFullYear()`,
      `getMonth()` (0-based) and `getDate()`. */
  datatype LocalDate = LocalDate(year: int, monthIndex: nat, day: nat)

  const DefaultName: string := "machines4u-scrape"
  const Extension: string := ".csv"

  /** A date as the calendar can give it, with a four-digit year. */
  predicate ValidDate(d: LocalDate) {
    1000 <= d.year <= 9999 && d.monthIndex < 12 && 1 <= d.day <= 31
  }

  /** What a path segment is: non-empty text containing no slash. */
  predicate IsSegment(s: string) {
    s != "" && '/' !in s
  }

  predicate AllSegments(segments: seq<string>) {
    forall i :: 0 <= i < |segments| ==> IsSegment(segments[i])
  }

  /** The non-empty segments of a URL pathname, in order. */
  function PathSegments(pathname: string): (segments: seq<string>)
    ensures AllSegments(segments)
  {
    KeepNonEmpty(Split(pathname, '/'))
  }

  /** The base name chosen from the segments: the last two joined by `-`, the
      only one, or the default. */
  function BaseName(segments: seq<string>): (name: string)
    ensures AllSegments(segments) ==> name != "" && '/' !in name
    ensures |segments| >= 1 ==> var last := segments[|segments| - 1];
      |last| <= |name| && name[|name| - |last|..] == last
    ensures |segments| == 0 ==> name == DefaultName
  {
    if |segments| >= 2 then segments[|segments| - 2] + "-" + segments[|segments| - 1]
    else if |segments| == 1 then segments[0]
    else DefaultName
  }

  /** The text of the date: the year, the 1-based month padded to two digits
      and the day padded to two digits, separated by `-`. */
  function DateText(d: LocalDate): string
  {
    IntToDecimal(d.year) + "-" + PadStart(NatToDecimal(d.monthIndex + 1), 2, '0')
      + "-" + PadStart(NatToDecimal(d.day), 2, '0')
  }

  /** The date part of the filename, which reads back as the date it was
      written from. */
  function DateString(d: LocalDate): (ds: string)
    ensures ValidDate(d) ==> ParseDateString(ds) == Some(d)
  {
    DateFieldsReadBack(d);
    DateText(d)
  }

  /** `isoTimestamp.split('T')[0]`: the text before the first `T`. */
  function IsoDatePart(isoTimestamp: string): (date: string)
    ensures 'T' !in date
    ensures date <= isoTimestamp
    ensures date == isoTimestamp || isoTimestamp[|date|] == 'T'
  {
    SplitFirstPart(isoTimestamp, 'T');
    Split(isoTimestamp, 'T')[0]
  }

  /** `generateFilenameFromUrl(url)`, with the clock read by the caller:
      `today` holds the local date fields and `isoNow` the `toISOString()` of
      the same instant, used only when the URL does not parse. */
  function FilenameFromUrl(url: UrlParse, today: LocalDate, isoNow: string): (filename: string)
    ensures |filename| > |Extension| && filename[|filename| - |Extension|..] == Extension
  {
    match url
    case Parsed(pathname) => BaseName(PathSegments(pathname)) + "-" + DateString(today) + Extension
    case ParseFailed => DefaultName + "-" + IsoDatePart(isoNow) + Extension
  }

  /** Reads a `YYYY-MM-DD` string back into the date fields it was written
      from; the inverse of `DateString` on valid dates. */
  function ParseDateString(s: string): (r: Option<LocalDate>)
    ensures r.Some? ==> |s| == 10 && s[4] == '-' && s[7] == '-'
  {
    if |s| == 10 && s[4] == '-' && s[7] == '-'
       && AllDigits(s[..4]) && AllDigits(s[5..7]) && AllDigits(s[8..])
       && DigitsValue(s[5..7]) >= 1
    then Some(LocalDate(DigitsValue(s[..4]), DigitsValue(s[5..7]) - 1, DigitsValue(s[8..])))
    else None
  }

  // ---------------------------------------------------------------------
  // Path segmentation

  /** A slash separates the segments on its left from those on its right. */
  lemma SegmentsAroundSlash(a: string, b: string)
    ensures PathSegments(a + "/" + b) == PathSegments(a) + PathSegments(b)
  {
    SplitAtSep(a, b, '/');
    KeepNonEmptyAppend(Split(a, '/'), Split(b, '/'));
  }

  /** A leading slash never changes the segments. */
  lemma SegmentsIgnoreLeadingSlash(p: string)
    ensures PathSegments("/" + p) == PathSegments(p)
  {
    SegmentsAroundSlash("", p);
    assert "" + "/" + p == "/" + p;
  }

  /** A trailing slash never changes the segments. */
  lemma SegmentsIgnoreTrailingSlash(p: string)
    ensures PathSegments(p + "/") == PathSegments(p)
  {
    SegmentsAroundSlash(p, "");
    assert p + "/" + "" == p + "/";
  }

  /** A doubled slash splits the path as a single one does. */
  lemma SegmentsCollapseRepeatedSlash(a: string, b: string)
    ensures PathSegments(a + "//" + b) == PathSegments(a + "/" + b)
  {
    SegmentsAroundSlash(a, "/" + b);
    assert a + "/" + ("/" + b) == a + "//" + b;
    SegmentsIgnoreLeadingSlash(b);
    SegmentsAroundSlash(a, b);
  }

  /** A pathname made only of slashes (`/`, `//`, or empty) has no segments. */
  lemma {:induction false} SegmentsOfSlashesOnly(p: string)
    requires forall i :: 0 <= i < |p| ==> p[i] == '/'
    ensures PathSegments(p) == []
    decreases |p|
  {
    if |p| > 0 {
      SegmentsOfSlashesOnly(p[1..]);
      SegmentsIgnoreLeadingSlash(p[1..]);
      assert p == "/" + p[1..];
    }
  }

  /** The pathname `/s1/s2/.../sn` built from non-empty, slash-free segments
      has exactly those segments. */
  lemma SegmentsOfJoinedPath(segments: seq<string>)
    requires AllSegments(segments)
    ensures PathSegments("/" + Join(segments, '/')) == segments
  {
    SegmentsIgnoreLeadingSlash(Join(segments, '/'));
    if |segments| > 0 {
      SplitJoin(segments, '/');
    }
  }

  // ---------------------------------------------------------------------
  // Base-name choice, stated on pathnames

  /** With two or more segments the base name is the second-to-last segment,
      `-`, and the last; the earlier segments play no part. */
  lemma FilenameFromDeepPath(earlier: seq<string>, parent: string, leaf: string, today: LocalDate, isoNow: string)
    requires AllSegments(earlier + [parent, leaf])
    ensures FilenameFromUrl(Parsed("/" + Join(earlier + [parent, leaf], '/')), today, isoNow)
         == parent + "-" + leaf + "-" + DateString(today) + Extension
  {
    var segments := earlier + [parent, leaf];
    SegmentsOfJoinedPath(segments);
    assert BaseName(segments) == parent + "-" + leaf by {
      assert segments[|segments| - 2] == parent && segments[|segments| - 1] == leaf;
    }
  }

  /** Only the last two segments matter: two pathnames whose last two
      segments agree give the same filename. */
  lemma FilenameDependsOnLastTwoSegments(p: string, q: string, today: LocalDate, isoNow: string)
    requires |PathSegments(p)| >= 2 && |PathSegments(q)| >= 2
    requires PathSegments(p)[|PathSegments(p)| - 2..] == PathSegments(q)[|PathSegments(q)| - 2..]
    ensures FilenameFromUrl(Parsed(p), today, isoNow) == FilenameFromUrl(Parsed(q), today, isoNow)
  {
    var sp, sq := PathSegments(p), PathSegments(q);
    assert sp[|sp| - 2] == sp[|sp| - 2..][0] == sq[|sq| - 2..][0] == sq[|sq| - 2];
    assert sp[|sp| - 1] == sp[|sp| - 2..][1] == sq[|sq| - 2..][1] == sq[|sq| - 1];
  }

  /** With exactly one segment the base name is that segment unchanged,
      whatever slashes surround it. */
  lemma FilenameFromSingleSegment(leading: string, segment: string, trailing: string, today: LocalDate, isoNow: string)
    requires forall i :: 0 <= i < |leading| ==> leading[i] == '/'
    requires forall i :: 0 <= i < |trailing| ==> trailing[i] == '/'
    requires IsSegment(segment)
    ensures FilenameFromUrl(Parsed(leading + segment + trailing), today, isoNow)
         == segment + "-" + DateString(today) + Extension
  {
    SegmentsOfSingleSegment(leading, segment, trailing);
  }

  /** A segment surrounded only by slashes is the pathname's one segment. */
  lemma SegmentsOfSingleSegment(leading: string, segment: string, trailing: string)
    requires forall i :: 0 <= i < |leading| ==> leading[i] == '/'
    requires forall i :: 0 <= i < |trailing| ==> trailing[i] == '/'
    requires IsSegment(segment)
    ensures PathSegments(leading + segment + trailing) == [segment]
  {
    assert PathSegments(segment) == [segment] by {
      SplitWithoutSep(segment, '/');
    }
    assert PathSegments(segment + trailing) == [segment] by {
      if |trailing| > 0 {
        assert segment + trailing == segment + "/" + trailing[1..];
        SegmentsAroundSlash(segment, trailing[1..]);
        SegmentsOfSlashesOnly(trailing[1..]);
      } else {
        assert segment + trailing == segment;
      }
    }
    if |leading| > 0 {
      var p := leading + segment + trailing;
      assert p == leading[..|leading| - 1] + "/" + (segment + trailing);
      SegmentsAroundSlash(leading[..|leading| - 1], segment + trailing);
      SegmentsOfSlashesOnly(leading[..|leading| - 1]);
    } else {
      assert leading + segment + trailing == segment + trailing;
    }
  }

  /** A pathname with no non-empty segment (such as `/`) gives the default
      base name. */
  lemma FilenameFromRootPath(p: string, today: LocalDate, isoNow: string)
    requires forall i :: 0 <= i < |p| ==> p[i] == '/'
    ensures FilenameFromUrl(Parsed(p), today, isoNow) == DefaultName + "-" + DateString(today) + Extension
  {
    SegmentsOfSlashesOnly(p);
  }

  /** The filename of a parsed URL never contains a slash, so it is a plain
      file name and not a path. */
  lemma ParsedFilenameHasNoSlash(p: string, today: LocalDate, isoNow: string)
    ensures '/' !in FilenameFromUrl(Parsed(p), today, isoNow)
  {
    DateStringExcludesChar(today, '/');
  }

  /** A date string holds no character other than digits and `-`. */
  lemma DateStringExcludesChar(d: LocalDate, c: char)
    requires !IsDigit(c) && c != '-'
    ensures c !in DateString(d)
  {
    var ds := DateString(d);
    DateStringCharacters(d);
    forall i | 0 <= i < |ds| ensures ds[i] != c {
      assert IsDigit(ds[i]) || ds[i] == '-';
    }
  }

  // ---------------------------------------------------------------------
  // Date part

  /** `String(n).padStart(2, '0')` for `n < 100` is two digits denoting `n`. */
  lemma PaddedTwoDigits(n: nat)
    ensures var s := PadStart(NatToDecimal(n), 2, '0');
      n < 100 ==> |s| == 2 && AllDigits(s) && DigitsValue(s) == n
  {
    if n < 100 {
      var digits := NatToDecimal(n);
      DigitsValueOfDecimal(n);
      if n < 10 {
        assert PadStart(digits, 2, '0') == "0" + digits;
        DigitsValueLeadingZero(digits);
      } else {
        DecimalLength(n, 2);
      }
    }
  }

  /** For a valid date the year, padded month and padded day, joined by `-`,
      read back as the same year, month index and day. */
  lemma DateFieldsReadBack(d: LocalDate)
    ensures ValidDate(d) ==> ParseDateString(DateText(d)) == Some(d)
  {
    if ValidDate(d) {
      assert Pow10(4) == 10000 && Pow10(3) == 1000 by {
        assert Pow10(1) == 10;
        assert Pow10(2) == 100;
      }
      DecimalLength(d.year, 4);
      DigitsValueOfDecimal(d.year);
      PaddedTwoDigits(d.monthIndex + 1);
      PaddedTwoDigits(d.day);
      var year := IntToDecimal(d.year);
      var month := PadStart(NatToDecimal(d.monthIndex + 1), 2, '0');
      var day := PadStart(NatToDecimal(d.day), 2, '0');
      DateLayout(year, month, day);
      ReadBackFields(year + "-" + month + "-" + day, d);
    }
  }

  /** Where the three fields of `year-month-day` sit when they are four, two
      and two characters long. */
  lemma DateLayout(year: string, month: string, day: string)
    requires |year| == 4 && |month| == 2 && |day| == 2
    ensures var s := year + "-" + month + "-" + day;
      |s| == 10 && s[4] == '-' && s[7] == '-'
      && s[..4] == year && s[5..7] == month && s[8..] == day
  {
  }

  /** A ten-character string with `-` at positions 4 and 7 and digit fields
      denoting the date's year, 1-based month and day reads back as that date. */
  lemma ReadBackFields(s: string, d: LocalDate)
    requires |s| == 10 && s[4] == '-' && s[7] == '-'
    requires AllDigits(s[..4]) && DigitsValue(s[..4]) == d.year
    requires AllDigits(s[5..7]) && DigitsValue(s[5..7]) == d.monthIndex + 1
    requires AllDigits(s[8..]) && DigitsValue(s[8..]) == d.day
    ensures ParseDateString(s) == Some(d)
  {
  }

  /** A date string has no `T`, so splitting a timestamp at `T` gives it back. */
  lemma IsoDatePartOfTimestamp(date: string, time: string)
    requires 'T' !in date
    ensures IsoDatePart(date + "T" + time) == date
  {
    SplitAtSep(date, time, 'T');
    SplitWithoutSep(date, 'T');
  }

  /** Made only of digits and `-`. */
  predicate DigitsOrDashes(s: string) {
    forall i :: 0 <= i < |s| ==> IsDigit(s[i]) || s[i] == '-'
  }

  /** Digits-and-dashes text stays so under concatenation. */
  lemma DigitsOrDashesAppend(a: string, b: string)
    requires DigitsOrDashes(a) && DigitsOrDashes(b)
    ensures DigitsOrDashes(a + b)
  {
    forall i | 0 <= i < |a + b| ensures IsDigit((a + b)[i]) || (a + b)[i] == '-' {
      if i < |a| { assert (a + b)[i] == a[i]; } else { assert (a + b)[i] == b[i - |a|]; }
    }
  }

  /** `String(n).padStart(2, '0')` is made of digits. */
  lemma PaddedDigits(n: nat)
    ensures DigitsOrDashes(PadStart(NatToDecimal(n), 2, '0'))
  {
    var digits := NatToDecimal(n);
    var s := PadStart(digits, 2, '0');
    forall i | 0 <= i < |s| ensures IsDigit(s[i]) {
      if i < |s| - |digits| {
        assert s[i] == '0';
      } else {
        assert s[i] == s[|s| - |digits|..][i - (|s| - |digits|)] == digits[i - (|s| - |digits|)];
      }
    }
  }

  /** Every character of a date string is a digit or `-`. */
  lemma DateStringCharacters(d: LocalDate)
    ensures DigitsOrDashes(DateString(d))
  {
    var y := IntToDecimal(d.year);
    var m := PadStart(NatToDecimal(d.monthIndex + 1), 2, '0');
    var dd := PadStart(NatToDecimal(d.day), 2, '0');
    assert DigitsOrDashes(y) by {
      if d.year < 0 {
        assert y == "-" + NatToDecimal(-d.year);
        DigitsOrDashesAppend("-", NatToDecimal(-d.year));
      }
    }
    assert DigitsOrDashes(m) by { PaddedDigits(d.monthIndex + 1); }
    assert DigitsOrDashes(dd) by { PaddedDigits(d.day); }
    assert DigitsOrDashes(y + "-" + m + "-" + dd) by {
      DigitsOrDashesAppend(y, "-");
      DigitsOrDashesAppend(y + "-", m);
      DigitsOrDashesAppend(y + "-" + m, "-");
      DigitsOrDashesAppend(y + "-" + m + "-", dd);
    }
    assert DateString(d) == DateText(d) == y + "-" + m + "-" + dd;
  }

  // ---------------------------------------------------------------------
  // The whole filename

  /** The filename of a parsed URL is its base name, `-`, the date and
      `.csv`; the date can be read back from the fixed-width tail. */
  lemma FilenameShape(p: string, today: LocalDate, isoNow: string)
    requires ValidDate(today)
    ensures var f := FilenameFromUrl(Parsed(p), today, isoNow);
      |f| >= 16
      && f[..|f| - 15] == BaseName(PathSegments(p))
      && f[|f| - 15] == '-'
      && ParseDateString(f[|f| - 14..|f| - 4]) == Some(today)
      && f[|f| - 4..] == ".csv"
  {
    var f := FilenameFromUrl(Parsed(p), today, isoNow);
    var base := BaseName(PathSegments(p));
    var ds := DateString(today);
    assert ParseDateString(ds) == Some(today);
    assert f == base + "-" + ds + Extension;
    FilenameLayout(base, ds);
    assert f[|f| - 14..|f| - 4] == ds;
  }

  /** Where the base name, the separator, a ten-character date and the
      extension sit in `base-date.csv`. */
  lemma FilenameLayout(base: string, date: string)
    requires |date| == 10
    ensures var f := base + "-" + date + Extension;
      |f| == |base| + 15 && f[..|f| - 15] == base && f[|f| - 15] == '-'
      && f[|f| - 14..|f| - 4] == date && f[|f| - 4..] == ".csv"
  {
    var f := base + "-" + date + Extension;
    assert f[..|f| - 15] == base;
    assert f[|f| - 14..|f| - 4] == date;
    assert f[|f| - 4..] == Extension;
  }

  /** When the URL does not parse, the filename is the default base name with
      the date part of the ISO timestamp, whatever the URL was. */
  lemma FallbackFilename(today: LocalDate, date: string, time: string)
    requires 'T' !in date
    ensures FilenameFromUrl(ParseFailed, today, date + "T" + time) == DefaultName + "-" + date + Extension
  {
    IsoDatePartOfTimestamp(date, time);
  }

  /** When the ISO timestamp begins with the same calendar date, an
      unparsable URL and a URL with no path segments get the same filename. */
  lemma FallbackAgreesWithRootPath(p: string, today: LocalDate, time: string)
    requires forall i :: 0 <= i < |p| ==> p[i] == '/'
    ensures var isoNow := DateString(today) + "T" + time;
      FilenameFromUrl(ParseFailed, today, isoNow) == FilenameFromUrl(Parsed(p), today, isoNow)
  {
    DateStringExcludesChar(today, 'T');
    FallbackFilename(today, DateString(today), time);
    FilenameFromRootPath(p, today, DateString(today) + "T" + time);
  }

  /** A worked example: a search URL for excavators scanned on 5 March 2024. */
  lemma FilenameExample(isoNow: string)
    ensures FilenameFromUrl(Parsed("/search/excavators"), LocalDate(2024, 2, 5), isoNow)
         == "search-excavators-2024-03-05.csv"
  {
    assert "search" + "-" + "excavators" + "-" + ("2024" + "-" + "03" + "-" + "05") + Extension
        == "search-excavators-2024-03-05.csv" by {}
    var f := FilenameFromUrl(Parsed("/search/excavators"), LocalDate(2024, 2, 5), isoNow);
    assert f == "search" + "-" + "excavators" + "-" + DateString(LocalDate(2024, 2, 5)) + Extension by {
      ExampleSegments();
    }
    ExampleDate();
  }

  /** The date part for 5 March 2024. */
  lemma ExampleDate()
    ensures DateString(LocalDate(2024, 2, 5)) == "2024" + "-" + "03" + "-" + "05"
  {
    ExampleYear();
    assert PadStart(NatToDecimal(3), 2, '0') == "03";
    assert PadStart(NatToDecimal(5), 2, '0') == "05";
  }

  /** The segments of `/search/excavators`. */
  lemma ExampleSegments()
    ensures PathSegments("/search/excavators") == ["search", "excavators"]
  {
    var segments := ["search", "excavators"];
    assert IsSegment("search") && IsSegment("excavators");
    assert "/" + Join(segments, '/') == "/search/excavators";
    SegmentsOfJoinedPath(segments);
  }

  /** `String(2024)` is `"2024"`. */
  lemma ExampleYear()
    ensures IntToDecimal(2024) == "2024"
  {
    assert NatToDecimal(2) == "2";
    assert NatToDecimal(20) == "20";
    assert NatToDecimal(202) == "202";
  }
}
