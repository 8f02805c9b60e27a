/** Field extraction: each paragraph of the block is trimmed and dispatched on
    its label; the text after the label is the field's value, and a later
    paragraph with the same label overrides an earlier one. */
module Fields {
  import opened Wrappers
  import opened Text

  datatype Field = StartDate | EndDate | HolidayDates | Year | Quarter

  function Label(f: Field): string {
    match f
    case StartDate => "Start-date:"
    case EndDate => "End-date:"
    case HolidayDates => "Holiday-dates:"
    case Year => "Year:"
    case Quarter => "Quarter:"
  }

  /** The `if … else if …` chain: which field a trimmed paragraph sets. */
  function Classify(text: string): (f: Option<Field>)
    ensures f.Some? ==> StartsWith(text, Label(f.value)) && ':' in text
  {
    if StartsWith(text, "Start-date:") then
      assert text[10] == ':'; Some(StartDate)
    else if StartsWith(text, "End-date:") then
      assert text[8] == ':'; Some(EndDate)
    else if StartsWith(text, "Holiday-dates:") then
      assert text[13] == ':'; Some(HolidayDates)
    else if StartsWith(text, "Year:") then
      assert text[4] == ':'; Some(Year)
    else if StartsWith(text, "Quarter:") then
      assert text[7] == ':'; Some(Quarter)
    else None
  }

  /** The labels begin with different letters, so the order of the chain does
      not matter: a paragraph sets a field exactly when it carries its label. */
  lemma ClassifyByLabel(text: string, f: Field)
    ensures Classify(text) == Some(f) <==> StartsWith(text, Label(f))
  {
    if StartsWith(text, Label(f)) {
      assert text[0] == Label(f)[0];
    }
    if Classify(text).Some? {
      var g := Classify(text).value;
      assert text[0] == Label(g)[0];
    }
  }

  /** `text.split(':')[1].trim()`: the text between the label's colon and the
      next colon, without surrounding white space. */
  function Value(text: string): (r: string)
    requires ':' in text
    ensures Clean(r)
  {
    TrimKeepsOut(Split(text, ':')[1], ':');
    Trim(Split(text, ':')[1])
  }

  /** What a field value looks like: no colon and no white space at
      either end. */
  predicate Clean(v: string) {
    && ':' !in v
    && (|v| > 0 ==> !IsSpace(v[0]) && !IsSpace(v[|v| - 1]))
  }

  /** The label's colon is its only one. */
  lemma LabelShape(f: Field)
    ensures |Label(f)| >= 2 && Label(f)[|Label(f)| - 1] == ':'
    ensures ':' !in Label(f)[..|Label(f)| - 1]
    ensures !IsSpace(Label(f)[0])
  {
  }

  /** The text after a label's colon, up to the next colon. */
  lemma LabelledValue(f: Field, v: string)
    requires ':' !in v
    ensures ':' in Label(f) + v
    ensures Value(Label(f) + v) == Trim(v)
  {
    LabelShape(f);
    var name := Label(f)[..|Label(f)| - 1];
    assert Label(f) == name + [':'];
    assert Label(f) + v == name + [':'] + v;
    SplitCons(name, ':', v);
    SplitNoSep(v, ':');
  }

  /** A paragraph that is a label followed by colon-free text sets that
      field to the text, trimmed. */
  lemma LabelledParagraph(fields: Fields, f: Field, v: string)
    requires ':' !in v
    ensures Step(fields, Label(f) + v) == fields[f := Trim(v)]
  {
    var u := TrimEnd(v);
    var text := Trim(Label(f) + v);
    assert text == Label(f) + u by { LabelledTrim(f, v); }
    assert ':' !in u by { assert u == v[..|u|]; }
    assert Classify(text) == Some(f) by { LabelledClassify(f, u); }
    assert Value(text) == Trim(v) by {
      LabelledValue(f, u);
      TrimOfTrimEnd(v);
    }
    StepHit(fields, Label(f) + v, f);
  }

  /** A paragraph carrying a field's label sets that field to its value. */
  lemma StepHit(fields: Fields, paragraph: string, f: Field)
    requires Classify(Trim(paragraph)) == Some(f)
    ensures Step(fields, paragraph) == fields[f := Value(Trim(paragraph))]
  {
  }

  /** Trimming a labelled paragraph only removes the text's trailing white
      space: the label starts with a letter and ends with its colon. */
  lemma LabelledTrim(f: Field, v: string)
    ensures Trim(Label(f) + v) == Label(f) + TrimEnd(v)
  {
    var text := Label(f) + v;
    LabelShape(f);
    assert text[0] == Label(f)[0];
    assert TrimStart(text) == text;
    TrimEndAppend(Label(f), v);
  }

  lemma LabelledClassify(f: Field, v: string)
    ensures Classify(Label(f) + v) == Some(f)
  {
    var text := Label(f) + v;
    assert text[..|Label(f)|] == Label(f);
    ClassifyByLabel(text, f);
  }

  /** The five field values; a field no paragraph set keeps its initial `''`. */
  type Fields = map<Field, string>

  function Get(fields: Fields, f: Field): string {
    if f in fields then fields[f] else ""
  }

  /** One iteration of the paragraph loop: it sets at most the field whose
      label the trimmed paragraph carries. */
  function Step(fields: Fields, paragraph: string): (r: Fields)
    ensures Classify(Trim(paragraph)).None? ==> r == fields
    ensures forall g :: Classify(Trim(paragraph)) != Some(g) ==> Get(r, g) == Get(fields, g)
    ensures forall g :: g in fields ==> g in r
  {
    var text := Trim(paragraph);
    match Classify(text)
    case Some(f) => fields[f := Value(text)]
    case None => fields
  }

  /** The whole paragraph loop, in document order. Every value it keeps is
      colon-free and trimmed. */
  function Extract(paragraphs: seq<string>): (r: Fields)
    ensures forall f :: f in r ==> Clean(r[f])
  {
    if |paragraphs| == 0 then map[]
    else Step(Extract(paragraphs[..|paragraphs| - 1]), paragraphs[|paragraphs| - 1])
  }

  /** What the last paragraph does to one field. */
  lemma ExtractLast(paragraphs: seq<string>, f: Field)
    requires |paragraphs| > 0
    ensures var last := Trim(paragraphs[|paragraphs| - 1]);
      Get(Extract(paragraphs), f) ==
        if Classify(last) == Some(f) then Value(last) else Get(Extract(paragraphs[..|paragraphs| - 1]), f)
  {
  }

  /** The last paragraph carrying a field's label decides its value. */
  lemma LastMatchWins(paragraphs: seq<string>, i: nat, f: Field)
    requires i < |paragraphs| && Classify(Trim(paragraphs[i])) == Some(f)
    requires forall j :: i < j < |paragraphs| ==> Classify(Trim(paragraphs[j])) != Some(f)
    ensures Get(Extract(paragraphs), f) == Value(Trim(paragraphs[i]))
  {
    var upTo := paragraphs[..i + 1];
    ExtractKeeps(paragraphs, upTo, f);
    assert upTo[i] == paragraphs[i];
    ExtractHit(upTo, f);
  }

  /** Paragraphs after a prefix that do not carry a field's label leave it as
      the prefix set it. */
  lemma {:induction false} ExtractKeeps(paragraphs: seq<string>, prefix: seq<string>, f: Field)
    requires prefix <= paragraphs
    requires forall j :: |prefix| <= j < |paragraphs| ==> Classify(Trim(paragraphs[j])) != Some(f)
    ensures Get(Extract(paragraphs), f) == Get(Extract(prefix), f)
    decreases |paragraphs|
  {
    if |prefix| < |paragraphs| {
      var init := paragraphs[..|paragraphs| - 1];
      assert Get(Extract(paragraphs), f) == Get(Extract(init), f) by {
        ExtractSkip(paragraphs, f);
      }
      assert prefix <= init;
      forall j | |prefix| <= j < |init|
        ensures Classify(Trim(init[j])) != Some(f)
      {
        assert init[j] == paragraphs[j];
      }
      ExtractKeeps(init, prefix, f);
    } else {
      assert prefix == paragraphs;
    }
  }

  /** A last paragraph carrying the field's label sets it. */
  lemma ExtractHit(paragraphs: seq<string>, f: Field)
    requires |paragraphs| > 0 && Classify(Trim(paragraphs[|paragraphs| - 1])) == Some(f)
    ensures Get(Extract(paragraphs), f) == Value(Trim(paragraphs[|paragraphs| - 1]))
  {
    ExtractLast(paragraphs, f);
  }

  /** A last paragraph not carrying the field's label leaves it alone. */
  lemma ExtractSkip(paragraphs: seq<string>, f: Field)
    requires |paragraphs| > 0 && Classify(Trim(paragraphs[|paragraphs| - 1])) != Some(f)
    ensures Get(Extract(paragraphs), f) == Get(Extract(paragraphs[..|paragraphs| - 1]), f)
  {
    ExtractLast(paragraphs, f);
  }

  /** A field no paragraph carries stays empty, which validation rejects. */
  lemma {:induction false} UnlabelledStaysEmpty(paragraphs: seq<string>, f: Field)
    requires forall j :: 0 <= j < |paragraphs| ==> Classify(Trim(paragraphs[j])) != Some(f)
    ensures Get(Extract(paragraphs), f) == ""
    decreases |paragraphs|
  {
    var n := |paragraphs|;
    if n > 0 {
      var init := paragraphs[..n - 1];
      ExtractSkip(paragraphs, f);
      forall j | 0 <= j < |init|
        ensures Classify(Trim(init[j])) != Some(f)
      {
        assert init[j] == paragraphs[j];
      }
      UnlabelledStaysEmpty(init, f);
    }
  }
}
