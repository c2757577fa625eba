/** The columns file and how `run` resolves it against the CSV header row: the index of each
    key's input header, the output header list, and the headers and values of the
    `concatenate_columns` sets. */
module Mapping {
  import opened Php

  /** One entry of the columns file. Each part is optional; `transform` is the `function` key,
      the name of a method of the converter. */
  datatype Rule = Rule(
    inputHeader: Option<string>,
    outputHeader: Option<string>,
    content: Option<string>,
    transform: Option<string>)

  /** One set of the `concatenate_columns` entry: the keys whose cells are joined, the
      separator, and the output header of the joined column. */
  datatype ConcatSet = ConcatSet(inputColumns: seq<string>, separator: string, outputHeader: string)

  /** The decoded columns file: the keyed rules in file order, and the `concatenate_columns`
      entry when the file has one. */
  datatype Columns = Columns(rules: seq<(string, Rule)>, concat: Option<seq<ConcatSet>>)

  /** The keys of the rules, in file order. */
  function Keys(rules: seq<(string, Rule)>): (ks: seq<string>)
    ensures |ks| == |rules| && forall i :: 0 <= i < |rules| ==> ks[i] == rules[i].0
  {
    seq(|rules|, i requires 0 <= i < |rules| => rules[i].0)
  }

  /** A decoded JSON object cannot repeat a key. */
  predicate KeysDistinct(cols: Columns)
  {
    Distinct(Keys(cols.rules))
  }

  /** The result of `array_search`: a position, or `false`. */
  datatype Index = At(pos: nat) | NotFound

  /** `array_search($h, $headers)`: the first position holding `h`. */
  function Search(headers: seq<string>, h: string): (r: Index)
    ensures r.At? ==> r.pos < |headers| && headers[r.pos] == h
    ensures r.NotFound? <==> h !in headers
    decreases |headers|
  {
    if |headers| == 0 then NotFound
    else if headers[0] == h then At(0)
    else match Search(headers[1..], h)
      case At(p) => At(p + 1)
      case NotFound => NotFound
  }

  /** The position found is the first one holding `h`. */
  lemma {:induction false} SearchFindsFirst(headers: seq<string>, h: string)
    ensures Search(headers, h).At? ==> forall j :: 0 <= j < Search(headers, h).pos ==> headers[j] != h
    decreases |headers|
  {
    if |headers| > 0 && headers[0] != h {
      SearchFindsFirst(headers[1..], h);
      if Search(headers, h).At? {
        forall j | 0 <= j < Search(headers, h).pos ensures headers[j] != h {
          if j > 0 { assert headers[j] == headers[1..][j - 1]; }
        }
      }
    }
  }

  /** `$indexes[$k]` used as a condition: position 0 and `false` are both falsy. */
  predicate IndexTruthy(i: Index)
  {
    i.At? && i.pos != 0
  }

  /** `$row[$indexes[$key]]`. A key with no index reads `$row[null]`, an undefined element;
      an index of `false` reads `$row[false]`, which is column 0. */
  function Cell(row: seq<string>, indexes: map<string, Index>, key: string): Value
  {
    if key !in indexes then Null
    else match indexes[key]
      case NotFound => if |row| > 0 then Str(row[0]) else Null
      case At(p) => if p < |row| then Str(row[p]) else Null
  }

  // ---------------------------------------------------------------- resolution

  datatype ResolveError = NoColumns | DuplicateInputHeader(inputHeader: string) | DuplicateOutputHeader(outputHeader: string)

  /** What resolution produces: the index of each key's input header, and the output headers. */
  datatype Resolution = Resolution(indexes: map<string, Index>, outputHeaders: seq<string>)

  /** One pass of the resolution loop over one key. The duplicate-input test looks up the
      key itself in `$indexes`, as the source does. */
  function ResolveStep(entry: (string, Rule), inputHeaders: seq<string>, res: Resolution): Result<Resolution, ResolveError>
  {
    var (key, rule) := entry;
    if rule.inputHeader.Some? && key in res.indexes && IndexTruthy(res.indexes[key]) then
      Failure(DuplicateInputHeader(rule.inputHeader.value))
    else
      var indexes := if rule.inputHeader.Some?
        then res.indexes[key := Search(inputHeaders, rule.inputHeader.value)]
        else res.indexes;
      if rule.outputHeader.Some? then
        if rule.outputHeader.value in res.outputHeaders then Failure(DuplicateOutputHeader(rule.outputHeader.value))
        else Success(Resolution(indexes, res.outputHeaders + [rule.outputHeader.value]))
      else Success(Resolution(indexes, res.outputHeaders))
  }

  /** The resolution loop after its first `n` keys. */
  function ResolvePrefix(rules: seq<(string, Rule)>, inputHeaders: seq<string>, n: nat): Result<Resolution, ResolveError>
    requires n <= |rules|
  {
    if n == 0 then Success(Resolution(map[], []))
    else match ResolvePrefix(rules, inputHeaders, n - 1)
      case Failure(e) => Failure(e)
      case Success(res) => ResolveStep(rules[n - 1], inputHeaders, res)
  }

  /** Once a key fails, the loop has stopped: the later keys change nothing. */
  lemma {:induction false} ResolvePrefixStops(rules: seq<(string, Rule)>, inputHeaders: seq<string>, n: nat, m: nat)
    requires n <= m <= |rules| && ResolvePrefix(rules, inputHeaders, n).Failure?
    ensures ResolvePrefix(rules, inputHeaders, m) == ResolvePrefix(rules, inputHeaders, n)
    decreases m
  {
    if m > n {
      ResolvePrefixStops(rules, inputHeaders, n, m - 1);
    }
  }

  /** The headers of the concatenation sets after each has been put at the front in turn:
      the last-declared set comes first. */
  function ConcatHeaders(sets: seq<ConcatSet>): seq<string>
  {
    if |sets| == 0 then [] else [sets[|sets| - 1].outputHeader] + ConcatHeaders(sets[..|sets| - 1])
  }

  function ConcatSets(cols: Columns): seq<ConcatSet>
  {
    if cols.concat.Some? then cols.concat.value else []
  }

  /** Everything `run` computes before the first row: refuse an empty columns file, resolve
      every key, then put the concatenation headers in front. */
  function Resolve(cols: Columns, inputHeaders: seq<string>): Result<Resolution, ResolveError>
  {
    if cols.rules == [] && cols.concat.None? then Failure(NoColumns)
    else match ResolvePrefix(cols.rules, inputHeaders, |cols.rules|)
      case Failure(e) => Failure(e)
      case Success(res) => Success(Resolution(res.indexes, ConcatHeaders(ConcatSets(cols)) + res.outputHeaders))
  }

  // ---------------------------------------------------------------- reference definitions

  /** The output headers the rules declare, in file order. */
  function DeclaredOutputHeaders(rules: seq<(string, Rule)>): (hs: seq<string>)
    ensures |hs| <= |rules|
  {
    if |rules| == 0 then []
    else
      var last := rules[|rules| - 1].1;
      DeclaredOutputHeaders(rules[..|rules| - 1]) + (if last.outputHeader.Some? then [last.outputHeader.value] else [])
  }

  /** The keys that have an input header, and the index each should get. */
  ghost predicate IndexesFor(rules: seq<(string, Rule)>, inputHeaders: seq<string>, indexes: map<string, Index>)
  {
    && (forall key :: key in indexes <==> exists i :: 0 <= i < |rules| && rules[i].0 == key && rules[i].1.inputHeader.Some?)
    && (forall i :: 0 <= i < |rules| && rules[i].1.inputHeader.Some? && rules[i].0 in indexes ==>
          indexes[rules[i].0] == Search(inputHeaders, rules[i].1.inputHeader.value))
  }

  /** The indexes after one more key: the new key is not yet indexed, because keys are
      distinct, and gets the position of its input header. */
  lemma IndexesStep(rules: seq<(string, Rule)>, inputHeaders: seq<string>, n: nat, indexes: map<string, Index>)
    requires 0 < n <= |rules| && Distinct(Keys(rules))
    requires IndexesFor(rules[..n - 1], inputHeaders, indexes)
    ensures rules[n - 1].0 !in indexes
    ensures var (key, rule) := rules[n - 1];
      IndexesFor(rules[..n], inputHeaders,
        if rule.inputHeader.Some? then indexes[key := Search(inputHeaders, rule.inputHeader.value)] else indexes)
  {
    var front := rules[..n - 1];
    var (key, rule) := rules[n - 1];
    forall i | 0 <= i < n - 1 ensures front[i].0 != key {
      assert Keys(rules)[i] == rules[i].0 && Keys(rules)[n - 1] == key;
    }
    var next := if rule.inputHeader.Some? then indexes[key := Search(inputHeaders, rule.inputHeader.value)] else indexes;
    var all := rules[..n];
    assert all[n - 1] == (key, rule);
    forall k ensures k in next <==> exists i :: 0 <= i < n && all[i].0 == k && all[i].1.inputHeader.Some? {
      if k in next && k != key {
        var i :| 0 <= i < n - 1 && front[i].0 == k && front[i].1.inputHeader.Some?;
        assert all[i] == front[i];
      }
      if exists i :: 0 <= i < n && all[i].0 == k && all[i].1.inputHeader.Some? {
        var i :| 0 <= i < n && all[i].0 == k && all[i].1.inputHeader.Some?;
        if i < n - 1 { assert front[i] == all[i]; }
      }
    }
    forall i | 0 <= i < n && all[i].1.inputHeader.Some? && all[i].0 in next
      ensures next[all[i].0] == Search(inputHeaders, all[i].1.inputHeader.value)
    {
      if i < n - 1 {
        assert front[i] == all[i];
      }
    }
  }

  /** The declared output headers after one more key are distinct exactly when the earlier
      ones are and the key's own header is new. */
  lemma DeclaredStep(rules: seq<(string, Rule)>, n: nat)
    requires 0 < n <= |rules|
    ensures var before := DeclaredOutputHeaders(rules[..n - 1]);
      var rule := rules[n - 1].1;
      && DeclaredOutputHeaders(rules[..n]) == before + (if rule.outputHeader.Some? then [rule.outputHeader.value] else [])
      && (Distinct(DeclaredOutputHeaders(rules[..n])) <==>
          Distinct(before) && (rule.outputHeader.Some? ==> rule.outputHeader.value !in before))
  {
    assert rules[..n][..n - 1] == rules[..n - 1];
    var before := DeclaredOutputHeaders(rules[..n - 1]);
    var now := DeclaredOutputHeaders(rules[..n]);
    var rule := rules[n - 1].1;
    if Distinct(now) {
      forall i, j | 0 <= i < j < |before| ensures before[i] != before[j] {
        assert now[i] == before[i] && now[j] == before[j];
      }
      if rule.outputHeader.Some? {
        forall j | 0 <= j < |before| ensures before[j] != rule.outputHeader.value {
          assert now[j] == before[j] && now[|now| - 1] == rule.outputHeader.value;
        }
      }
    }
    if Distinct(before) && (rule.outputHeader.Some? ==> rule.outputHeader.value !in before) {
      forall i, j | 0 <= i < j < |now| ensures now[i] != now[j] {
        if j == |now| - 1 { assert now[i] == before[i]; }
      }
    }
  }

  /** With distinct keys, resolving the first `n` keys succeeds exactly when their declared
      output headers are distinct; it then yields those headers, in order, and the index of
      every key's input header. In particular the duplicate-input test never fires. */
  lemma {:induction false} ResolvePrefixMeaning(rules: seq<(string, Rule)>, inputHeaders: seq<string>, n: nat)
    requires n <= |rules| && Distinct(Keys(rules))
    ensures ResolvePrefix(rules, inputHeaders, n).Success? <==> Distinct(DeclaredOutputHeaders(rules[..n]))
    ensures ResolvePrefix(rules, inputHeaders, n).Success? ==>
      var res := ResolvePrefix(rules, inputHeaders, n).value;
      res.outputHeaders == DeclaredOutputHeaders(rules[..n]) && IndexesFor(rules[..n], inputHeaders, res.indexes)
    ensures ResolvePrefix(rules, inputHeaders, n).Failure? ==> ResolvePrefix(rules, inputHeaders, n).error.DuplicateOutputHeader?
  {
    if n == 0 {
      assert rules[..0] == [];
    } else {
      ResolvePrefixMeaning(rules, inputHeaders, n - 1);
      DeclaredStep(rules, n);
      var prev := ResolvePrefix(rules, inputHeaders, n - 1);
      if prev.Success? {
        IndexesStep(rules, inputHeaders, n, prev.value.indexes);
      }
    }
  }

  /** The output headers of a successful resolution are the concatenation headers, last
      declared first, followed by every key's output header in key order; resolution stops on a
      repeated output header and on nothing else but an empty columns file. */
  lemma ResolveMeaning(cols: Columns, inputHeaders: seq<string>)
    requires KeysDistinct(cols)
    ensures Resolve(cols, inputHeaders).Success? <==>
      !(cols.rules == [] && cols.concat.None?) && Distinct(DeclaredOutputHeaders(cols.rules))
    ensures Resolve(cols, inputHeaders).Success? ==>
      var res := Resolve(cols, inputHeaders).value;
      && res.outputHeaders == ConcatHeaders(ConcatSets(cols)) + DeclaredOutputHeaders(cols.rules)
      && IndexesFor(cols.rules, inputHeaders, res.indexes)
    ensures Resolve(cols, inputHeaders).Failure? ==>
      Resolve(cols, inputHeaders).error.NoColumns? || Resolve(cols, inputHeaders).error.DuplicateOutputHeader?
  {
    ResolvePrefixMeaning(cols.rules, inputHeaders, |cols.rules|);
    assert cols.rules[..|cols.rules|] == cols.rules;
  }

  /** Two keys may name the same input header: the resolution does not notice. */
  lemma SharedInputHeaderAccepted()
    ensures var r := Rule(Some("Start"), None, None, None);
      Resolve(Columns([("a", r), ("b", r)], None), ["Start"]) ==
        Success(Resolution(map["a" := At(0), "b" := At(0)], []))
  {
    var r := Rule(Some("Start"), None, None, None);
    var rules := [("a", r), ("b", r)];
    assert Search(["Start"], "Start") == At(0);
    assert ResolvePrefix(rules, ["Start"], 1) == Success(Resolution(map["a" := At(0)], []));
    assert ResolvePrefix(rules, ["Start"], 2) == Success(Resolution(map["a" := At(0), "b" := At(0)], []));
    var noHeaders: seq<string> := [];
    assert ConcatHeaders(ConcatSets(Columns(rules, None))) + noHeaders == [];
    var expected := Success(Resolution(map["a" := At(0), "b" := At(0)], []));
    assert |Columns(rules, None).rules| == 2;
    assert Resolve(Columns(rules, None), ["Start"]) == expected;
  }

  /** A key whose input header is absent from the CSV reads column 0. */
  lemma {:induction false} MissingInputHeaderReadsFirstColumn(cols: Columns, inputHeaders: seq<string>, row: seq<string>, i: nat)
    requires KeysDistinct(cols) && Resolve(cols, inputHeaders).Success?
    requires i < |cols.rules| && cols.rules[i].1.inputHeader.Some? && cols.rules[i].1.inputHeader.value !in inputHeaders
    requires |row| > 0
    ensures Cell(row, Resolve(cols, inputHeaders).value.indexes, cols.rules[i].0) == Str(row[0])
  {
    ResolveMeaning(cols, inputHeaders);
  }

  /** A key without an input header has no index, and reads null. */
  lemma {:induction false} NoInputHeaderReadsNull(cols: Columns, inputHeaders: seq<string>, row: seq<string>, i: nat)
    requires KeysDistinct(cols) && Resolve(cols, inputHeaders).Success?
    requires i < |cols.rules| && cols.rules[i].1.inputHeader.None?
    ensures Cell(row, Resolve(cols, inputHeaders).value.indexes, cols.rules[i].0) == Null
  {
    ResolveMeaning(cols, inputHeaders);
  }

  // ---------------------------------------------------------------- concatenation

  /** The cells a set names, read through the indexes, joined with its separator. */
  function JoinSet(cs: ConcatSet, row: seq<string>, indexes: map<string, Index>): string
  {
    Join(cs.separator, seq(|cs.inputColumns|, i requires 0 <= i < |cs.inputColumns| =>
      AsString(Cell(row, indexes, cs.inputColumns[i]))))
  }

  /** The joined values after each set has been put at the front of the row in turn. */
  function ConcatCells(sets: seq<ConcatSet>, row: seq<string>, indexes: map<string, Index>): seq<Value>
  {
    if |sets| == 0 then []
    else [Str(JoinSet(sets[|sets| - 1], row, indexes))] + ConcatCells(sets[..|sets| - 1], row, indexes)
  }

  /** The i-th concatenated cell is the joined value of the set whose header is the i-th
      concatenation header: both lists hold the sets in reverse declaration order. */
  lemma {:induction false} ConcatAligned(sets: seq<ConcatSet>, row: seq<string>, indexes: map<string, Index>)
    ensures |ConcatCells(sets, row, indexes)| == |ConcatHeaders(sets)| == |sets|
    ensures forall i :: 0 <= i < |sets| ==>
      && ConcatHeaders(sets)[i] == sets[|sets| - 1 - i].outputHeader
      && ConcatCells(sets, row, indexes)[i] == Str(JoinSet(sets[|sets| - 1 - i], row, indexes))
  {
    if |sets| > 0 {
      var front := sets[..|sets| - 1];
      ConcatAligned(front, row, indexes);
      forall i | 1 <= i < |sets|
        ensures ConcatHeaders(sets)[i] == sets[|sets| - 1 - i].outputHeader
        ensures ConcatCells(sets, row, indexes)[i] == Str(JoinSet(sets[|sets| - 1 - i], row, indexes))
      {
        assert ConcatHeaders(sets)[i] == ConcatHeaders(front)[i - 1];
        assert ConcatCells(sets, row, indexes)[i] == ConcatCells(front, row, indexes)[i - 1];
        assert front[|front| - 1 - (i - 1)] == sets[|sets| - 1 - i];
      }
    }
  }
}
