/** The methods a column's `function` can name, and the memo state two of them keep.
    The answer lists are what the `lime_answers` queries return; the date formatter
    (`strtotime` then `date`) and the clock are given, not computed. */
module Transforms {
  import opened Php
  import opened Mapping

  /** The converter's memo fields: answer text to code for the satisfaction question, the
      count of each code returned, and lower-cased region name to code. */
  datatype Memo = Memo(satisfactionCodes: map<string, string>, frequency: map<string, nat>, regionToCode: map<string, string>)

  /** What a transform returns, and the memo after it. */
  datatype Lookup = Lookup(result: Value, memo: Memo)

  /** What the transforms use but cannot compute: the (answer, code) rows of the two
      `lime_answers` queries, the date formatter, the clock, and what the formatter makes of the
      `DateTime` object that `submitdate` hands it for an incomplete survey. */
  datatype Services = Services(
    satisfactionAnswers: seq<(string, string)>,
    regionAnswers: seq<(string, string)>,
    toSql: string -> string,
    now: string,
    incompleteSubmitDate: Value)

  // ---------------------------------------------------------------- dispatch

  datatype Transform = Datestamp | LastPage | RegionToLSCode | GetSatisfactionCode | ConvertDateToSql | SubmitDate | OverrideStatus

  /** What `method_exists` finds: one of the transforms, one of the converter's other
      methods, or nothing. PHP method names ignore case. */
  datatype MethodKind = TransformMethod(t: Transform) | StructuralMethod | NoSuchMethod

  function FindMethod(name: string): MethodKind
  {
    var n := ToLower(name);
    if n == "datestamp" then TransformMethod(Datestamp)
    else if n == "lastpage" then TransformMethod(LastPage)
    else if n == "regiontolscode" then TransformMethod(RegionToLSCode)
    else if n == "getsatisfactioncode" then TransformMethod(GetSatisfactionCode)
    else if n == "convert_date_to_sql" then TransformMethod(ConvertDateToSql)
    else if n == "submitdate" then TransformMethod(SubmitDate)
    else if n == "override_status" then TransformMethod(OverrideStatus)
    else if n in ["db_insert", "row_exists_in_db", "concatenate_columns", "__construct", "run"] then StructuralMethod
    else NoSuchMethod
  }

  /** Dispatch does not depend on the case of the name. */
  lemma {:induction false} FindMethodIgnoresCase(a: string, b: string)
    requires ToLower(a) == ToLower(b)
    ensures FindMethod(a) == FindMethod(b)
  {
  }

  // ---------------------------------------------------------------- pure transforms

  /** `lastpage`: "13" for a completed survey, null otherwise. */
  function LastPageValue(row: seq<string>, indexes: map<string, Index>): (v: Value)
    ensures v == Str("13") <==> Cell(row, indexes, "status") == Str("Complete")
    ensures v == Str("13") || v == Null
  {
    if Cell(row, indexes, "status") == Str("Complete") then Str("13") else Null
  }

  /** `override_status`: "Completed" when the OverallSatisfaction cell is truthy, the cell
      unchanged otherwise. */
  function OverrideStatusValue(cell: Value, row: seq<string>, indexes: map<string, Index>): (v: Value)
    ensures v == cell || v == Str("Completed")
    ensures Truthy(Cell(row, indexes, "OverallSatisfaction")) ==> v == Str("Completed")
    ensures !Truthy(Cell(row, indexes, "OverallSatisfaction")) ==> v == cell
  {
    if Truthy(Cell(row, indexes, "OverallSatisfaction")) then Str("Completed") else cell
  }

  /** An OverallSatisfaction answer of "0" counts as no answer, as does an empty one. */
  lemma OverrideStatusZeroIsUnanswered(cell: Value, row: seq<string>, indexes: map<string, Index>)
    requires Cell(row, indexes, "OverallSatisfaction") in {Str("0"), Str(""), Null}
    ensures OverrideStatusValue(cell, row, indexes) == cell
  {
  }

  /** `convert_date_to_sql`: an empty date becomes null; any other goes to the formatter. */
  function DateToSql(v: Value, toSql: string -> string): (r: Value)
    ensures r == Null <==> LooselyEmpty(v)
    ensures r != Null ==> r == Str(toSql(AsString(v)))
  {
    if LooselyEmpty(v) then Null else Str(toSql(AsString(v)))
  }

  /** Which date `submitdate` converts. */
  datatype SubmitSource = Clock | DatestampCell | StartdateCell

  function SubmitSourceOf(row: seq<string>, indexes: map<string, Index>): (s: SubmitSource)
    ensures s == Clock <==> Cell(row, indexes, "status") != Str("Complete")
    ensures s == DatestampCell <==>
      Cell(row, indexes, "status") == Str("Complete") && !LooselyEmpty(Cell(row, indexes, "datestamp"))
  {
    if Cell(row, indexes, "status") != Str("Complete") then Clock
    else if LooselyEmpty(Cell(row, indexes, "datestamp")) then StartdateCell
    else DatestampCell
  }

  /** `submitdate`: the clock for an incomplete survey; otherwise the datestamp cell, or the
      startdate cell when the datestamp is empty, through `convert_date_to_sql`. */
  function SubmitDateValue(row: seq<string>, indexes: map<string, Index>, svc: Services): Value
  {
    match SubmitSourceOf(row, indexes)
    case Clock => svc.incompleteSubmitDate
    case DatestampCell => DateToSql(Cell(row, indexes, "datestamp"), svc.toSql)
    case StartdateCell => DateToSql(Cell(row, indexes, "startdate"), svc.toSql)
  }

  // ---------------------------------------------------------------- memoised lookups

  /** The map the `foreach` over the query result builds: a later row for the same answer
      overwrites an earlier one. */
  function FillCodes(answers: seq<(string, string)>): map<string, string>
  {
    if |answers| == 0 then map[]
    else FillCodes(answers[..|answers| - 1])[answers[|answers| - 1].0 := answers[|answers| - 1].1]
  }

  /** The answers with their text lower-cased, as `regionToLSCode` stores them: a text and a
      code are stored exactly when some answer has that code and lower-cases to that text. */
  function LowerKeys(answers: seq<(string, string)>): (r: seq<(string, string)>)
    ensures |r| == |answers|
    ensures forall i :: 0 <= i < |answers| ==> r[i] == (ToLower(answers[i].0), answers[i].1)
    ensures forall t, c :: (t, c) in r <==> exists t0 :: (t0, c) in answers && ToLower(t0) == t
  {
    var r := seq(|answers|, i requires 0 <= i < |answers| => (ToLower(answers[i].0), answers[i].1));
    assert forall t0, c :: (t0, c) in answers ==> (ToLower(t0), c) in r by {
      forall t0, c | (t0, c) in answers ensures (ToLower(t0), c) in r {
        var i :| 0 <= i < |answers| && answers[i] == (t0, c);
        assert r[i] == (ToLower(t0), c);
      }
    }
    r
  }

  ghost predicate HasAnswer(answers: seq<(string, string)>, text: string)
  {
    exists i :: 0 <= i < |answers| && answers[i].0 == text
  }

  /** `code` belongs to the last answer row whose text is `text`. */
  ghost predicate IsCodeOf(answers: seq<(string, string)>, text: string, code: string)
  {
    exists i :: 0 <= i < |answers| && answers[i] == (text, code) && forall j :: i < j < |answers| ==> answers[j].0 != text
  }

  /** The filled map holds exactly the answer texts, each with the code of its last row. */
  lemma {:induction false} FillCodesMeaning(answers: seq<(string, string)>, text: string)
    ensures text in FillCodes(answers) <==> HasAnswer(answers, text)
    ensures text in FillCodes(answers) ==> IsCodeOf(answers, text, FillCodes(answers)[text])
  {
    if |answers| > 0 {
      var front := answers[..|answers| - 1];
      var last := answers[|answers| - 1];
      FillCodesMeaning(front, text);
      if last.0 == text {
        assert answers[|answers| - 1] == (text, FillCodes(answers)[text]);
      } else {
        if HasAnswer(answers, text) {
          var i :| 0 <= i < |answers| && answers[i].0 == text;
          assert front[i].0 == text;
        }
        if text in FillCodes(answers) {
          var i :| 0 <= i < |front| && front[i] == (text, FillCodes(front)[text])
            && forall j :: i < j < |front| ==> front[j].0 != text;
          assert answers[i] == front[i];
          assert forall j :: i < j < |answers| ==> answers[j].0 != text by {
            forall j | i < j < |answers| ensures answers[j].0 != text {
              if j < |answers| - 1 { assert answers[j] == front[j]; }
            }
          }
        }
      }
    }
  }

  /** `+= 1` on the code's count in `$this->frequency`; a new code starts from 0. */
  function Bump(frequency: map<string, nat>, code: string): (f: map<string, nat>)
    ensures f.Keys == frequency.Keys + {code}
    ensures f[code] == (if code in frequency then frequency[code] else 0) + 1
    ensures forall c :: c in frequency && c != code ==> f[c] == frequency[c]
  {
    frequency[code := (if code in frequency then frequency[code] else 0) + 1]
  }

  /** A code found for the text: count it and return it. */
  function Found(memo: Memo, code: string): Lookup
  {
    Lookup(Str(code), memo.(frequency := Bump(memo.frequency, code)))
  }

  /** `getSatisfactionCode`: on an empty memo, fill it from the answers and reset the counts;
      then look up the exact text, then its title-cased form, counting the code found. */
  function SatisfactionStep(memo: Memo, answers: seq<(string, string)>, satisfaction: Value): (r: Lookup)
    ensures r.result.Str?
    ensures r.memo.regionToCode == memo.regionToCode
    ensures |memo.satisfactionCodes| > 0 ==> r.memo.satisfactionCodes == memo.satisfactionCodes
    ensures |memo.satisfactionCodes| == 0 ==> r.memo.satisfactionCodes == FillCodes(answers)
  {
    var m := if |memo.satisfactionCodes| == 0
      then memo.(satisfactionCodes := FillCodes(answers), frequency := map[])
      else memo;
    var text := AsString(satisfaction);
    var titleCase := UcWords(ToLower(text));
    if text in m.satisfactionCodes then Found(m, m.satisfactionCodes[text])
    else if titleCase in m.satisfactionCodes then Found(m, m.satisfactionCodes[titleCase])
    else Lookup(Str(""), m)
  }

  /** `regionToLSCode`'s normalisation: lower-case, remove every "region", trim. */
  function NormalizeRegion(region: Value): string
  {
    Trim(Replace(ToLower(AsString(region)), "region", ""))
  }

  /** `regionToLSCode`: on an empty memo, fill it from the answers with lower-cased texts; then
      look up the normalised region, returning false on a miss. */
  function RegionStep(memo: Memo, answers: seq<(string, string)>, region: Value): (r: Lookup)
    ensures r.memo.satisfactionCodes == memo.satisfactionCodes && r.memo.frequency == memo.frequency
    ensures |memo.regionToCode| > 0 ==> r.memo.regionToCode == memo.regionToCode
    ensures |memo.regionToCode| == 0 ==> r.memo.regionToCode == FillCodes(LowerKeys(answers))
    ensures r.result.Str? || r.result == False
  {
    var m := if |memo.regionToCode| == 0 then memo.(regionToCode := FillCodes(LowerKeys(answers))) else memo;
    var key := NormalizeRegion(region);
    if key in m.regionToCode then Lookup(Str(m.regionToCode[key]), m) else Lookup(False, m)
  }

  /** Every memo map is empty or holds what its query would fill it with. */
  ghost predicate MemoFaithful(memo: Memo, svc: Services)
  {
    && (|memo.satisfactionCodes| == 0 || memo.satisfactionCodes == FillCodes(svc.satisfactionAnswers))
    && (|memo.regionToCode| == 0 || memo.regionToCode == FillCodes(LowerKeys(svc.regionAnswers)))
  }

  /** The counts `getSatisfactionCode` starts from: reset when the memo is filled. */
  function FrequencyBase(memo: Memo): map<string, nat>
  {
    if |memo.satisfactionCodes| == 0 then map[] else memo.frequency
  }

  /** With a faithful memo, `getSatisfactionCode` returns the code of the exact answer text if
      there is one, else of the title-cased text, else ""; it counts exactly the codes it finds. */
  lemma {:induction false} SatisfactionMeaning(memo: Memo, svc: Services, satisfaction: Value)
    requires MemoFaithful(memo, svc)
    ensures var answers := svc.satisfactionAnswers;
      var text := AsString(satisfaction);
      var titleCase := UcWords(ToLower(text));
      var r := SatisfactionStep(memo, answers, satisfaction);
      && (HasAnswer(answers, text) ==> IsCodeOf(answers, text, r.result.s))
      && (!HasAnswer(answers, text) && HasAnswer(answers, titleCase) ==> IsCodeOf(answers, titleCase, r.result.s))
      && (!HasAnswer(answers, text) && !HasAnswer(answers, titleCase) ==> r.result == Str(""))
      && r.memo.frequency == if HasAnswer(answers, text) || HasAnswer(answers, titleCase)
           then Bump(FrequencyBase(memo), r.result.s) else FrequencyBase(memo)
  {
    var text := AsString(satisfaction);
    FillCodesMeaning(svc.satisfactionAnswers, text);
    FillCodesMeaning(svc.satisfactionAnswers, UcWords(ToLower(text)));
    var m := if |memo.satisfactionCodes| == 0
      then memo.(satisfactionCodes := FillCodes(svc.satisfactionAnswers), frequency := map[])
      else memo;
    assert m.satisfactionCodes == FillCodes(svc.satisfactionAnswers) && m.frequency == FrequencyBase(memo);
  }

  /** With a faithful memo, `regionToLSCode` returns the code of the last answer whose
      lower-cased text is the normalised region, and false when there is none. */
  lemma {:induction false} RegionMeaning(memo: Memo, svc: Services, region: Value)
    requires MemoFaithful(memo, svc)
    ensures var lowered := LowerKeys(svc.regionAnswers);
      var key := NormalizeRegion(region);
      var r := RegionStep(memo, svc.regionAnswers, region);
      && (HasAnswer(lowered, key) ==> r.result.Str? && IsCodeOf(lowered, key, r.result.s))
      && (!HasAnswer(lowered, key) ==> r.result == False)
  {
    FillCodesMeaning(LowerKeys(svc.regionAnswers), NormalizeRegion(region));
  }

  /** Region lookup does not depend on the case of its input. */
  lemma RegionIgnoresCase(memo: Memo, answers: seq<(string, string)>, a: Value, b: Value)
    requires ToLower(AsString(a)) == ToLower(AsString(b))
    ensures RegionStep(memo, answers, a) == RegionStep(memo, answers, b)
  {
  }

  // ---------------------------------------------------------------- counts

  /** Some code that has a count. */
  ghost function PickCode(frequency: map<string, nat>): (code: string)
    requires |frequency| > 0
    ensures code in frequency
  {
    assert |frequency.Keys| > 0;
    var code :| code in frequency.Keys;
    code
  }

  /** The sum of all counts. */
  ghost function Total(frequency: map<string, nat>): nat
    decreases |frequency|
  {
    if |frequency| == 0 then 0
    else
      var code := PickCode(frequency);
      assert (frequency - {code}).Keys == frequency.Keys - {code};
      frequency[code] + Total(frequency - {code})
  }

  /** The sum can be split at any code. */
  lemma {:induction false} TotalSplit(frequency: map<string, nat>, code: string)
    requires code in frequency
    ensures Total(frequency) == frequency[code] + Total(frequency - {code})
    decreases |frequency|
  {
    var picked := PickCode(frequency);
    if picked != code {
      var rest := frequency - {picked};
      var other := frequency - {code};
      assert rest.Keys == frequency.Keys - {picked};
      TotalSplit(rest, code);
      assert other.Keys == frequency.Keys - {code};
      TotalSplit(other, picked);
      assert rest - {code} == other - {picked};
    }
  }

  /** Counting one more code raises the sum by exactly one. */
  lemma {:induction false} TotalBump(frequency: map<string, nat>, code: string)
    ensures Total(Bump(frequency, code)) == Total(frequency) + 1
  {
    var bumped := Bump(frequency, code);
    TotalSplit(bumped, code);
    if code in frequency {
      TotalSplit(frequency, code);
      assert bumped - {code} == frequency - {code};
    } else {
      assert bumped - {code} == frequency;
    }
  }

  /** Over one `getSatisfactionCode` call, the sum of the counts grows by one exactly when a
      code was found (after the reset a first call makes). */
  lemma SatisfactionCountsMatches(memo: Memo, svc: Services, satisfaction: Value)
    requires MemoFaithful(memo, svc)
    ensures var text := AsString(satisfaction);
      var answers := svc.satisfactionAnswers;
      var matched := HasAnswer(answers, text) || HasAnswer(answers, UcWords(ToLower(text)));
      Total(SatisfactionStep(memo, answers, satisfaction).memo.frequency) ==
        Total(FrequencyBase(memo)) + (if matched then 1 else 0)
  {
    SatisfactionMeaning(memo, svc, satisfaction);
    var text := AsString(satisfaction);
    var r := SatisfactionStep(memo, svc.satisfactionAnswers, satisfaction);
    if HasAnswer(svc.satisfactionAnswers, text) || HasAnswer(svc.satisfactionAnswers, UcWords(ToLower(text))) {
      TotalBump(FrequencyBase(memo), r.result.s);
    }
  }

  // ---------------------------------------------------------------- application

  /** Call a transform with the pre-transform cell, the parsed row and the indexes. */
  function ApplyTransform(t: Transform, cell: Value, row: seq<string>, indexes: map<string, Index>, svc: Services, memo: Memo): (r: Lookup)
    ensures t != RegionToLSCode && t != GetSatisfactionCode ==> r.memo == memo
  {
    match t
    case Datestamp => Lookup(Str(svc.now), memo)
    case LastPage => Lookup(LastPageValue(row, indexes), memo)
    case RegionToLSCode => RegionStep(memo, svc.regionAnswers, cell)
    case GetSatisfactionCode => SatisfactionStep(memo, svc.satisfactionAnswers, cell)
    case ConvertDateToSql => Lookup(DateToSql(cell, svc.toSql), memo)
    case SubmitDate => Lookup(SubmitDateValue(row, indexes, svc), memo)
    case OverrideStatus => Lookup(OverrideStatusValue(cell, row, indexes), memo)
  }

  /** Transforms keep the memo faithful. */
  lemma ApplyTransformKeepsMemoFaithful(t: Transform, cell: Value, row: seq<string>, indexes: map<string, Index>, svc: Services, memo: Memo)
    requires MemoFaithful(memo, svc)
    ensures MemoFaithful(ApplyTransform(t, cell, row, indexes, svc, memo).memo, svc)
  {
  }
}
