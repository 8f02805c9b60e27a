/** Worked examples of the engine on concrete periods, stated for any start
    day so that they hold whatever day number the host gives the first of
    January 2024. */
module Scenarios {
  import opened Wrappers
  import opened Text
  import opened Fields
  import opened Validation
  import opened Calendar
  import opened Capacity
  import opened Targets
  import opened Engine

  /** Three full weeks, no holidays, a stored target of 100%: every week has
      40 available and 40 target hours; 35 hours in week 1 is 88% and a gap
      of -5, flagged red. */
  lemma ThreeFullWeeks(start: int, today: int)
    ensures var p := Period(2024, Q1, Some(start), Some(start + 20), []);
      var store := map[TargetPercentKey(StoragePrefix(2024, Q1)) := 100.0];
      var t := Load(p, store, today);
      && |t.weeks| == 3
      && (forall k :: 0 <= k < 3 ==> t.weeks[k].available == 40 && t.weeks[k].target == 40)
      && var edited := SetWeekHours(t, 0, Some(35.0));
         && edited.weeks[0].achievement == 88
         && edited.weeks[0].gap == -5.0
         && FlagOf(edited.weeks[0].gap) == Red
  {
    var p := Period(2024, Q1, Some(start), Some(start + 20), []);
    var prefix := StoragePrefix(2024, Q1);
    var store := map[TargetPercentKey(prefix) := 100.0];
    var t := Load(p, store, today);
    PartitionShape(start, start + 20);
    assert Read(store, TargetPercentKey(prefix)) == Some(100.0);
    assert t.percent == 100.0;
    forall k | 0 <= k < 3
      ensures t.weeks[k].available == 40 && t.weeks[k].target == 40
    {
      assert HolidayCount([], PeriodWindows(p)[k]) == 0;
      Numbers.RoundWhole(40);
    }
    var e := EffectiveTarget(40, 100.0);
    assert e == 40.0;
    assert 35.0 / 40.0 * 100.0 == 87.5;
    Numbers.RoundUnique(87.5, 88);
  }

  /** A holiday on the third day takes week 1 to 32 available hours, and
      the default 87% of that rounds to 28 target hours. */
  lemma HolidayInFirstWeek(start: int, today: int)
    ensures var p := Period(2024, Q1, Some(start), Some(start + 20), [Some(start + 2)]);
      var t := Load(p, map[], today);
      && t.percent == DefaultTargetPercent
      && |t.weeks| == 3
      && t.weeks[0].available == 32
      && t.weeks[0].target == 28
      && t.weeks[1].available == 40
  {
    var p := Period(2024, Q1, Some(start), Some(start + 20), [Some(start + 2)]);
    PartitionShape(start, start + 20);
    var t := Load(p, map[], today);
    assert [Some(start + 2)][..0] == [];
    assert HolidayCount([Some(start + 2)], PeriodWindows(p)[0]) == 1;
    assert HolidayCount([Some(start + 2)], PeriodWindows(p)[1]) == 0;
    assert EffectiveTarget(32, 87.0) == 27.84;
    Numbers.RoundUnique(27.84, 28);
  }

  /** Five days make one short week that ends on the end day. */
  lemma FiveDayPeriod(start: int, store: Store, today: int)
    ensures var t := Load(Period(2024, Q1, Some(start), Some(start + 4), []), store, today);
      |t.weeks| == 1 && t.weeks[0].startDay == start && t.weeks[0].endDay == start + 4
  {
    PartitionShape(start, start + 4);
  }

  /** A field value as an author would type it: not empty, no colon, no
      white space at either end. */
  predicate Tidy(v: string) {
    |v| > 0 && ':' !in v && !IsSpace(v[0]) && !IsSpace(v[|v| - 1])
  }

  /** `Label: value`, the way a block paragraph is written. */
  function Paragraph(f: Field, v: string): string {
    Label(f) + " " + v
  }

  lemma ParagraphReads(f: Field, v: string)
    requires Tidy(v)
    ensures Trim(Paragraph(f, v)) == Paragraph(f, v)
    ensures Classify(Paragraph(f, v)) == Some(f)
    ensures ':' in Paragraph(f, v) && Value(Paragraph(f, v)) == v
  {
    var w := " " + v;
    assert Paragraph(f, v) == Label(f) + w by { ConcatAssoc(Label(f), " ", v); }
    assert ':' !in w;
    SpacedValueTrim(v);
    LabelledTrim(f, w);
    LabelledClassify(f, w);
    LabelledValue(f, w);
  }

  /** The space after the label is trimmed off the value, and only it. */
  lemma SpacedValueTrim(v: string)
    requires Tidy(v)
    ensures TrimEnd(" " + v) == " " + v && Trim(" " + v) == v
  {
    var w := " " + v;
    assert w[|w| - 1] == v[|v| - 1];
    assert w[1..] == v;
    assert TrimStart(v) == v;
    assert TrimStart(w) == v;
  }

  /** Paragraphs that each carry a different field set exactly those. */
  lemma {:induction false} DistinctLabels(paragraphs: seq<string>, order: seq<Field>, values: seq<string>)
    requires |paragraphs| == |order| == |values|
    requires forall k :: 0 <= k < |paragraphs| ==>
      Classify(Trim(paragraphs[k])) == Some(order[k]) && ':' in Trim(paragraphs[k])
      && Value(Trim(paragraphs[k])) == values[k]
    requires forall j, k :: 0 <= j < k < |order| ==> order[j] != order[k]
    ensures forall k :: 0 <= k < |order| ==> Get(Extract(paragraphs), order[k]) == values[k]
  {
    forall k | 0 <= k < |order|
      ensures Get(Extract(paragraphs), order[k]) == values[k]
    {
      LastMatchWins(paragraphs, k, order[k]);
    }
  }

  lemma RenderedYearIsTidy(year: nat)
    ensures Tidy(IntToString(year))
  {
    var s := IntToString(year);
    DigitIsNotSpace(s[0]);
    DigitIsNotSpace(s[|s| - 1]);
    assert ':' !in s by {
      forall i | 0 <= i < |s| ensures s[i] != ':' {
        assert IsDigit(s[i]);
      }
    }
  }

  function Block(startText: string, endText: string, holidaysText: string, year: nat): seq<string> {
    [Paragraph(StartDate, startText), Paragraph(EndDate, endText), Paragraph(HolidayDates, holidaysText),
     Paragraph(Field.Year, IntToString(year)), Paragraph(Field.Quarter, "q3")]
  }

  function BlockOrder(): seq<Field> {
    [StartDate, EndDate, HolidayDates, Field.Year, Field.Quarter]
  }

  lemma BlockOrderDistinct()
    ensures forall j, k :: 0 <= j < k < |BlockOrder()| ==> BlockOrder()[j] != BlockOrder()[k]
  {
  }

  function BlockValues(startText: string, endText: string, holidaysText: string, year: nat): seq<string> {
    [startText, endText, holidaysText, IntToString(year), "q3"]
  }

  lemma BlockParagraph(startText: string, endText: string, holidaysText: string, year: nat, k: nat)
    requires Tidy(startText) && Tidy(endText) && Tidy(holidaysText) && k < 5
    ensures var text := Trim(Block(startText, endText, holidaysText, year)[k]);
      Classify(text) == Some(BlockOrder()[k]) && ':' in text
      && Value(text) == BlockValues(startText, endText, holidaysText, year)[k]
  {
    var f, v := BlockOrder()[k], BlockValues(startText, endText, holidaysText, year)[k];
    RenderedYearIsTidy(year);
    assert Tidy("q3");
    assert Block(startText, endText, holidaysText, year)[k] == Paragraph(f, v);
    ParagraphReads(f, v);
  }

  lemma BlockFields(startText: string, endText: string, holidaysText: string, year: nat)
    requires Tidy(startText) && Tidy(endText) && Tidy(holidaysText)
    ensures var fields := Extract(Block(startText, endText, holidaysText, year));
      && Get(fields, StartDate) == startText && Get(fields, EndDate) == endText
      && Get(fields, HolidayDates) == holidaysText
      && Get(fields, Field.Year) == IntToString(year) && Get(fields, Field.Quarter) == "q3"
  {
    var order := BlockOrder();
    var values := BlockValues(startText, endText, holidaysText, year);
    var paragraphs := Block(startText, endText, holidaysText, year);
    assert order[0] == StartDate && values[0] == startText;
    assert order[1] == EndDate && values[1] == endText;
    assert order[2] == HolidayDates && values[2] == holidaysText;
    assert order[3] == Field.Year && values[3] == IntToString(year);
    assert order[4] == Field.Quarter && values[4] == "q3";
    forall k | 0 <= k < |paragraphs|
      ensures Classify(Trim(paragraphs[k])) == Some(order[k]) && ':' in Trim(paragraphs[k])
        && Value(Trim(paragraphs[k])) == values[k]
    {
      BlockParagraph(startText, endText, holidaysText, year, k);
    }
    BlockOrderDistinct();
    DistinctLabels(paragraphs, order, values);
  }

  lemma TidyFieldsValidate(fields: Fields, startText: string, endText: string, holidaysText: string, year: nat)
    requires Tidy(startText) && Tidy(endText) && Tidy(holidaysText)
    requires && Get(fields, StartDate) == startText && Get(fields, EndDate) == endText
      && Get(fields, HolidayDates) == holidaysText
      && Get(fields, Field.Year) == IntToString(year) && Get(fields, Field.Quarter) == "q3"
    ensures Validate(fields) == Ok(Settings(startText, endText, holidaysText, year, Q3))
  {
    RenderedYearParses(year);
    QuarterThree();
    AllPresentByField(fields);
  }

  lemma RenderedYearParses(year: int)
    ensures ParseInt(IntToString(year)) == Some(year)
  {
    ParseIntOfRendering(year, "");
    assert IntToString(year) + "" == IntToString(year);
  }

  lemma QuarterThree()
    ensures ParseQuarter("q3") == Some(Q3)
  {
  }

  lemma BlockValidates(startText: string, endText: string, holidaysText: string, year: nat)
    requires Tidy(startText) && Tidy(endText) && Tidy(holidaysText)
    ensures Validate(Extract(Block(startText, endText, holidaysText, year)))
         == Ok(Settings(startText, endText, holidaysText, year, Q3))
  {
    BlockFields(startText, endText, holidaysText, year);
    TidyFieldsValidate(Extract(Block(startText, endText, holidaysText, year)),
                       startText, endText, holidaysText, year);
  }

  /** A complete block, fields in the usual order: initialization succeeds,
      keys are prefixed `<year>-Q3`, and the dates reach the host's parser
      as typed. */
  lemma WellFormedBlock(startText: string, endText: string, holidaysText: string, year: nat,
                        parseDay: string -> Option<int>, store: Store, today: int)
    requires Tidy(startText) && Tidy(endText) && Tidy(holidaysText)
    ensures var r := Init(Block(startText, endText, holidaysText, year), parseDay, store, today);
      && r.Ok?
      && Prefix(r.value.period) == StoragePrefix(year, Q3)
      && r.value.period.startDay == parseDay(startText)
      && r.value.period.endDay == parseDay(endText)
  {
    BlockValidates(startText, endText, holidaysText, year);
    InitOfValid(Block(startText, endText, holidaysText, year),
                Settings(startText, endText, holidaysText, year, Q3), parseDay, store, today);
  }

  /** What initialization makes of a block that validates. */
  lemma InitOfValid(paragraphs: seq<string>, settings: Settings,
                    parseDay: string -> Option<int>, store: Store, today: int)
    requires Validate(Extract(paragraphs)) == Ok(settings)
    ensures var r := Init(paragraphs, parseDay, store, today);
      && r.Ok?
      && Prefix(r.value.period) == StoragePrefix(settings.year, settings.quarter)
      && r.value.period.startDay == parseDay(settings.startText)
      && r.value.period.endDay == parseDay(settings.endText)
  {
  }
}
