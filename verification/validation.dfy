/** Validation of the extracted fields and the storage keys derived from the
    year and quarter. */
module Validation {
  import opened Wrappers
  import opened Text
  import opened Fields

  datatype Quarter = Q1 | Q2 | Q3 | Q4

  datatype ValidationError =
    | MissingField          // one of the five fields is empty
    | InvalidYearOrQuarter  // the year is NaN or the quarter is not q1..q4

  /** What initialization continues with once validation has passed. */
  datatype Settings = Settings(
    startText: string,
    endText: string,
    holidaysText: string,
    year: int,
    quarter: Quarter)

  /** `quarterValue.toUpperCase()` for an accepted quarter. */
  function QuarterName(q: Quarter): string {
    match q
    case Q1 => "Q1"
    case Q2 => "Q2"
    case Q3 => "Q3"
    case Q4 => "Q4"
  }

  /** `['q1', 'q2', 'q3', 'q4'].includes(quarterStr.toLowerCase())`. No
      character outside ASCII lower-cases to `q` or to a digit, so ASCII case
      mapping accepts exactly what the full mapping accepts. */
  function ParseQuarter(s: string): (q: Option<Quarter>)
    ensures q.Some? <==> |s| == 2 && (s[0] == 'q' || s[0] == 'Q') && '1' <= s[1] <= '4'
    ensures q.Some? ==> QuarterName(q.value) == ToUpper(ToLower(s))
  {
    var lower := ToLower(s);
    if lower == "q1" then Some(Q1)
    else if lower == "q2" then Some(Q2)
    else if lower == "q3" then Some(Q3)
    else if lower == "q4" then Some(Q4)
    else None
  }

  predicate AllPresent(fields: Fields) {
    forall f :: Get(fields, f) != ""
  }

  lemma AllPresentByField(fields: Fields)
    ensures AllPresent(fields) <==>
      && Get(fields, StartDate) != "" && Get(fields, EndDate) != ""
      && Get(fields, HolidayDates) != "" && Get(fields, Year) != "" && Get(fields, Quarter) != ""
  {
    if !AllPresent(fields) {
      var f :| Get(fields, f) == "";
      match f
      case StartDate =>
      case EndDate =>
      case HolidayDates =>
      case Year =>
      case Quarter =>
    }
  }

  /** The two early returns of initialization, in the order the code makes
      them: emptiness first, then the year and quarter. */
  function Validate(fields: Fields): (r: Result<Settings, ValidationError>)
    ensures r == Err(MissingField) <==> !AllPresent(fields)
    ensures r == Err(InvalidYearOrQuarter) <==>
      AllPresent(fields) && (ParseInt(Get(fields, Year)).None? || ParseQuarter(Get(fields, Quarter)).None?)
    ensures r.Ok? ==>
      && Some(r.value.year) == ParseInt(Get(fields, Year))
      && Some(r.value.quarter) == ParseQuarter(Get(fields, Quarter))
      && r.value.startText == Get(fields, StartDate)
      && r.value.endText == Get(fields, EndDate)
      && r.value.holidaysText == Get(fields, HolidayDates)
  {
    AllPresentByField(fields);
    if Get(fields, StartDate) == "" || Get(fields, EndDate) == "" || Get(fields, HolidayDates) == ""
       || Get(fields, Year) == "" || Get(fields, Quarter) == "" then
      Err(MissingField)
    else
      var year := ParseInt(Get(fields, Year));
      var quarter := ParseQuarter(Get(fields, Quarter));
      if year.None? || quarter.None? then Err(InvalidYearOrQuarter)
      else Ok(Settings(Get(fields, StartDate), Get(fields, EndDate), Get(fields, HolidayDates),
                       year.value, quarter.value))
  }

  /** `${yearValue}-${quarterValue.toUpperCase()}`. */
  function StoragePrefix(year: int, quarter: Quarter): string {
    IntToString(year) + "-" + QuarterName(quarter)
  }

  /** `parseInt` reads the year back from the storage prefix. */
  lemma PrefixReadsYear(year: int, quarter: Quarter)
    ensures ParseInt(StoragePrefix(year, quarter)) == Some(year)
  {
    var tail := "-" + QuarterName(quarter);
    assert tail[0] == '-';
    ParseIntOfRendering(year, tail);
    ConcatAssoc(IntToString(year), "-", QuarterName(quarter));
  }

  /** `${storagePrefix}-customerFacingTargetPercent`. */
  function TargetPercentKey(prefix: string): string {
    prefix + "-customerFacingTargetPercent"
  }

  /** The target-percent key is the prefix, then a tail not shaped like a
      week's. */
  lemma TargetPercentKeyShape(prefix: string)
    ensures StartsWith(TargetPercentKey(prefix), prefix)
    ensures !StartsWith(TargetPercentKey(prefix)[|prefix|..], "-week-")
  {
    assert TargetPercentKey(prefix)[|prefix| + 1] == 'c';
  }

  function WeekHoursSuffix(weekNumber: nat): string {
    "-week-" + NatToString(weekNumber) + "-customerFacingHours"
  }

  /** `${storagePrefix}-week-${weekNumber}-customerFacingHours`. */
  function WeekHoursKey(prefix: string, weekNumber: nat): string {
    prefix + WeekHoursSuffix(weekNumber)
  }

  /** A week's key is the prefix, then `-week-`. */
  lemma WeekHoursKeyShape(prefix: string, weekNumber: nat)
    ensures StartsWith(WeekHoursKey(prefix, weekNumber), prefix)
    ensures StartsWith(WeekHoursKey(prefix, weekNumber)[|prefix|..], "-week-")
  {
    assert WeekHoursKey(prefix, weekNumber)[|prefix|..] == WeekHoursSuffix(weekNumber);
  }

  /** Different week numbers give different week suffixes. */
  lemma WeekHoursSuffixInjective(m: nat, n: nat)
    requires WeekHoursSuffix(m) == WeekHoursSuffix(n)
    ensures m == n
  {
    var a, b := NatToString(m), NatToString(n);
    assert |a| == |b|;
    assert a == WeekHoursSuffix(m)[6..6 + |a|];
    assert b == WeekHoursSuffix(n)[6..6 + |b|];
    NatToStringInjective(m, n);
  }

  /** Within one quarter, each week's hours live under their own key. */
  lemma WeekHoursKeysDistinct(prefix: string, m: nat, n: nat)
    requires m != n
    ensures WeekHoursKey(prefix, m) != WeekHoursKey(prefix, n)
  {
    if WeekHoursKey(prefix, m) == WeekHoursKey(prefix, n) {
      assert WeekHoursSuffix(m) == WeekHoursKey(prefix, m)[|prefix|..];
      assert WeekHoursSuffix(n) == WeekHoursKey(prefix, n)[|prefix|..];
      WeekHoursSuffixInjective(m, n);
    }
  }

  /** The target-percent key never coincides with a week's key. */
  lemma TargetKeyIsNotWeekKey(prefix: string, n: nat)
    ensures TargetPercentKey(prefix) != WeekHoursKey(prefix, n)
  {
    assert TargetPercentKey(prefix)[|prefix| + 1] == 'c';
    assert WeekHoursKey(prefix, n)[|prefix| + 1] == 'w';
  }

  /** A key built on a storage prefix determines the year, the quarter and
      the rest of the key: keys of different quarters never collide. */
  lemma PrefixedKeysDetermine(y1: int, q1: Quarter, rest1: string, y2: int, q2: Quarter, rest2: string)
    requires StoragePrefix(y1, q1) + rest1 == StoragePrefix(y2, q2) + rest2
    ensures y1 == y2 && q1 == q2 && rest1 == rest2
  {
    YearLengthsAgree(y1, q1, rest1, y2, q2, rest2);
    SpelledKeysDetermine(y1, q1, rest1, y2, q2, rest2);
  }

  /** The same, on the spelled-out prefix. */
  lemma SpelledKeysDetermine(y1: int, q1: Quarter, rest1: string, y2: int, q2: Quarter, rest2: string)
    requires |IntToString(y1)| == |IntToString(y2)|
    requires IntToString(y1) + "-" + QuarterName(q1) + rest1 == IntToString(y2) + "-" + QuarterName(q2) + rest2
    ensures y1 == y2 && q1 == q2 && rest1 == rest2
  {
    var a, b := IntToString(y1), IntToString(y2);
    var k := a + "-" + QuarterName(q1) + rest1;
    assert a == k[..|a|] && b == k[..|b|];
    assert y1 == y2 by {
      ParseIntOfRendering(y1, "");
      ParseIntOfRendering(y2, "");
      assert a + "" == a && b + "" == b;
    }
    assert QuarterName(q1)[1] == k[|a| + 2] == QuarterName(q2)[1];
    assert rest1 == k[|a| + 3..];
    assert rest2 == (b + "-" + QuarterName(q2) + rest2)[|b| + 3..];
  }

  /** The first `Q` of a prefixed key sits right after the year and its dash. */
  lemma QAfterYear(y: int, q: Quarter, rest: string)
    ensures (StoragePrefix(y, q) + rest)[|IntToString(y)| + 1] == 'Q'
  {
  }

  lemma NoQInYear(y: int, q: Quarter, rest: string, i: nat)
    requires i <= |IntToString(y)|
    ensures (StoragePrefix(y, q) + rest)[i] != 'Q'
  {
    IntToStringHasNoQ(y);
    if i < |IntToString(y)| {
      assert (StoragePrefix(y, q) + rest)[i] == IntToString(y)[i];
    }
  }

  lemma YearLengthsAgree(y1: int, q1: Quarter, rest1: string, y2: int, q2: Quarter, rest2: string)
    requires StoragePrefix(y1, q1) + rest1 == StoragePrefix(y2, q2) + rest2
    ensures |IntToString(y1)| == |IntToString(y2)|
  {
    var a, b := IntToString(y1), IntToString(y2);
    if |a| < |b| {
      QAfterYear(y1, q1, rest1);
      NoQInYear(y2, q2, rest2, |a| + 1);
    } else if |b| < |a| {
      QAfterYear(y2, q2, rest2);
      NoQInYear(y1, q1, rest1, |b| + 1);
    }
  }

  lemma IntToStringHasNoQ(y: int)
    ensures forall i :: 0 <= i < |IntToString(y)| ==> IntToString(y)[i] != 'Q'
  {
    var s := IntToString(y);
    forall i | 0 <= i < |s|
      ensures s[i] != 'Q'
    {
      if y < 0 {
        var d := NatToString(-y);
        if i > 0 {
          assert s[i] == d[i - 1];
        }
      }
    }
  }

  /** Hours stored for one week of one quarter are never read as another
      week's hours or another quarter's. */
  lemma WeekHoursKeysAcrossQuarters(y1: int, q1: Quarter, m: nat, y2: int, q2: Quarter, n: nat)
    requires WeekHoursKey(StoragePrefix(y1, q1), m) == WeekHoursKey(StoragePrefix(y2, q2), n)
    ensures y1 == y2 && q1 == q2 && m == n
  {
    PrefixedKeysDetermine(y1, q1, WeekHoursSuffix(m), y2, q2, WeekHoursSuffix(n));
    WeekHoursSuffixInjective(m, n);
  }
}
