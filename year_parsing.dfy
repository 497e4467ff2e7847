/**
  The two year extractors of the splitter: the year of a message date token
  such as `2/23/14`, and the year embedded in an exported media file name
  such as `00003761-PHOTO-2025-07-03-14-42-05.jpg`.
*/
module YearParsing {
  import opened PythonText

  /** What `extract_year_from_date` does: return an int, return None, or
      raise ValueError from `int()` on the (widened) third field. */
  datatype DateYear = Year(value: nat) | NoYear | ValueError(literal: string)

  /** The separators of the pattern `[/.-]`. */
  const DateSeparators: set<char> := {'/', '.', '-'}

  /** A two-character year field is read as 20xx; any other field is kept:
      two digits `dd` convert to 2000 + dd, and a field of any other length
      converts (or fails to) exactly as it would unwidened. */
  function WidenYear(field: string): (r: string)
    ensures |field| == 2 && AllDigits(field) ==> PyInt(r) == Some(2000 + DigitsValue(field))
    ensures |field| != 2 ==> PyInt(r) == PyInt(field)
  {
    if |field| == 2 then
      WidenTwoDigits(field);
      "20" + field
    else field
  }

  lemma WidenTwoDigits(field: string)
    requires |field| == 2
    ensures AllDigits(field) ==> PyInt("20" + field) == Some(2000 + DigitsValue(field))
  {
    if AllDigits(field) {
      var c := "20";
      Twenty(c);
      DigitsValueAppend(c, field);
      assert Pow10(|field|) == 100;
      PyIntOfDigits(c + field);
    }
  }

  lemma Twenty(c: string)
    requires c == "20"
    ensures AllDigits(c) && DigitsValue(c) == 20
  {
    assert c[..1] == "2";
  }

  /** `extract_year_from_date(date_str)`. */
  function ExtractYearFromDate(dateStr: string): DateYear {
    var parts := Split(dateStr, DateSeparators);
    if |parts| == 3 then
      var year := WidenYear(parts[2]);
      match PyInt(year)
      case Some(v) => Year(v)
      case None => ValueError(year)
    else NoYear
  }

  /** A date token gives a year exactly when it has three fields; the
      ValueError carries the widened third field, which `int()` rejects. */
  lemma DateYearNeedsThreeFields(dateStr: string)
    ensures ExtractYearFromDate(dateStr).NoYear? <==> |Split(dateStr, DateSeparators)| != 3
    ensures ExtractYearFromDate(dateStr).ValueError? ==>
      var parts := Split(dateStr, DateSeparators);
      && ExtractYearFromDate(dateStr).literal == WidenYear(parts[2])
      && PyInt(ExtractYearFromDate(dateStr).literal).None?
  {
  }

  /** `extract_year_from_filename(filename)`. */
  function ExtractYearFromFilename(filename: string): (r: Option<nat>)
    ensures r.Some? <==>
      var parts := Split(filename, {'-'});
      |parts| >= 3 && |parts[2]| == 4 && AllDigits(parts[2])
    ensures r.Some? ==> r.value < 10000
  {
    var parts := Split(filename, {'-'});
    if |parts| >= 3 && AllDigits(parts[2]) && |parts[2]| == 4 then
      Some(DigitsValue(parts[2]))
    else None
  }

  // ---------------------------------------------------------------------
  // Properties

  /** A date token with exactly three fields whose third field is two digits
      `dd` gives the year 2000 + dd: no century cut-off. */
  lemma TwoDigitYear(dateStr: string)
    requires |Split(dateStr, DateSeparators)| == 3
    requires var f := Split(dateStr, DateSeparators)[2]; |f| == 2 && AllDigits(f)
    ensures var f := Split(dateStr, DateSeparators)[2];
      ExtractYearFromDate(dateStr) == Year(2000 + DigitsValue(f))
  {
  }

  /** A third field of any other length is converted as it stands. */
  lemma OtherLengthYear(dateStr: string)
    requires |Split(dateStr, DateSeparators)| == 3
    requires var f := Split(dateStr, DateSeparators)[2]; |f| != 2 && |f| >= 1 && AllDigits(f)
    ensures var f := Split(dateStr, DateSeparators)[2];
      ExtractYearFromDate(dateStr) == Year(DigitsValue(f))
  {
    var f := Split(dateStr, DateSeparators)[2];
    assert Strip(f) == f;
  }

  /** An empty third field (`1/2/`) makes `int('')` raise. */
  lemma EmptyYearFieldRaises(dateStr: string)
    requires |Split(dateStr, DateSeparators)| == 3 && Split(dateStr, DateSeparators)[2] == ""
    ensures ExtractYearFromDate(dateStr) == ValueError("")
  {
  }

  /** A third field holding one of U+001C..U+001F raises, even where
      `strip()` would remove it (`1/2/\x1c2014`): `int()` does not skip it. */
  lemma InfoSeparatorYearRaises(dateStr: string, j: nat)
    requires |Split(dateStr, DateSeparators)| == 3
    requires var f := Split(dateStr, DateSeparators)[2]; j < |f| && f[j] in InfoSeparators
    ensures ExtractYearFromDate(dateStr).ValueError?
  {
    var f := Split(dateStr, DateSeparators)[2];
    var w := WidenYear(f);
    var k := if |f| == 2 then j + 2 else j;
    assert k < |w| && w[k] == f[j];
  }

  /** Writing a date as digit fields joined by `/` (`str(d) + '/' + str(m)
      + '/' + str(y)`) and extracting its year gives `y` back, widened to
      20yy when `y` has two digits. */
  lemma DateRoundTrip(fields: seq<string>, y: nat)
    requires |fields| == 3 && forall i :: 0 <= i < 3 ==> AllDigits(fields[i])
    requires fields[2] == NatToString(y)
    ensures ExtractYearFromDate(Join(fields, '/')) == Year(if 10 <= y < 100 then 2000 + y else y)
  {
    var ys := NatToString(y);
    forall i | 0 <= i < 3 ensures NoneIn(fields[i], DateSeparators) {
      assert AllDigits(fields[i]);
    }
    JoinSplit(fields, '/', DateSeparators);
    NatToStringValue(y);
    if |ys| == 2 {
      TwoDigitYear(Join(fields, '/'));
      assert 10 <= y < 100 by { LeadingDigitBound(ys); }
    } else {
      OtherLengthYear(Join(fields, '/'));
      if |ys| > 2 {
        LeadingDigitBound(ys);
        assert Pow10(|ys| - 1) >= 100 by { Pow10Grows(|ys| - 1); }
      }
    }
  }

  /** A date token made of digit fields and slashes holds no whitespace, so
      `strip()` leaves it as it is. */
  lemma DigitTokenUnstripped(fields: seq<string>)
    requires |fields| >= 1 && forall i :: 0 <= i < |fields| ==> AllDigits(fields[i])
    ensures forall i :: 0 <= i < |Join(fields, '/')| ==> IsDigit(Join(fields, '/')[i]) || Join(fields, '/')[i] == '/'
    ensures Strip(Join(fields, '/')) == Join(fields, '/')
  {
    JoinDigits(fields, '/');
  }

  lemma {:induction false} Pow10Grows(n: nat)
    requires n >= 2
    ensures Pow10(n) >= 100
  {
    if n > 2 { Pow10Grows(n - 1); }
  }

  /** `2/23/14` is 2014: a two-digit year is read as 20xx. */
  lemma DateExample2014()
    ensures ExtractYearFromDate("2/23/14") == Year(2014)
  {
    var fields := [NatToString(2), NatToString(23), NatToString(14)];
    assert Join(fields, '/') == "2/23/14" by {
      assert NatToString(2) == "2" && NatToString(23) == "23" && NatToString(14) == "14";
    }
    DateRoundTrip(fields, 14);
  }

  /** `1/1/99` is 2099, not 1999. */
  lemma DateExample2099()
    ensures ExtractYearFromDate("1/1/99") == Year(2099)
  {
    var fields := [NatToString(1), NatToString(1), NatToString(99)];
    assert Join(fields, '/') == "1/1/99" by {
      assert NatToString(1) == "1" && NatToString(99) == "99";
    }
    DateRoundTrip(fields, 99);
  }

  /** A media name whose third `-`-separated field is `str(y)` for a four-digit
      year `y` yields `y`, whatever the other fields hold. */
  lemma FilenameRoundTrip(fields: seq<string>, y: nat)
    requires |fields| >= 3 && forall i :: 0 <= i < |fields| ==> NoneIn(fields[i], {'-'})
    requires fields[2] == NatToString(y) && 1000 <= y < 10000
    ensures ExtractYearFromFilename(Join(fields, '-')) == Some(y)
  {
    JoinSplit(fields, '-', {'-'});
    NatToStringValue(y);
    NatToStringLength(y);
  }

  lemma NatToStringLength(y: nat)
    requires 1000 <= y < 10000
    ensures |NatToString(y)| == 4
  {
    var s1 := NatToString(y / 10);
    var s2 := NatToString(y / 100);
    var s3 := NatToString(y / 1000);
  }

  /** A file name with fewer than three fields, or whose third field is not
      four digits, gives no year. */
  lemma FilenameWithoutYear(filename: string)
    requires var parts := Split(filename, {'-'});
      |parts| < 3 || |parts[2]| != 4 || !AllDigits(parts[2])
    ensures ExtractYearFromFilename(filename) == None
  {
  }

  /** An all-zero year field (`0000`) yields 0, which the callers treat as
      no year. */
  lemma FilenameZeroYear(fields: seq<string>)
    requires |fields| >= 3 && forall i :: 0 <= i < |fields| ==> NoneIn(fields[i], {'-'})
    requires |fields[2]| == 4 && forall i :: 0 <= i < 4 ==> fields[2][i] == '0'
    ensures ExtractYearFromFilename(Join(fields, '-')) == Some(0)
  {
    JoinSplit(fields, '-', {'-'});
    ZerosValue(fields[2]);
  }

  /** `str(year)` of a media file's year writes back the year field of the
      name exactly when that field has no leading zero (`0999` is written
      `999`). */
  lemma FilenameYearWrittenBack(filename: string)
    requires ExtractYearFromFilename(filename).Some?
    ensures var f := Split(filename, {'-'})[2];
      NatToString(ExtractYearFromFilename(filename).value) == f <==> f[0] != '0'
  {
    var f := Split(filename, {'-'})[2];
    if f[0] != '0' {
      ValueNatToString(f);
    }
  }

  lemma {:induction false} ZerosValue(s: string)
    requires forall i :: 0 <= i < |s| ==> s[i] == '0'
    ensures AllDigits(s) && DigitsValue(s) == 0
    decreases |s|
  {
    if s != [] {
      ZerosValue(s[..|s| - 1]);
    }
  }
}
