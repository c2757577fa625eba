/** The converter itself: the option checks, the row-by-row conversion as functions of the
    state before each row, and `TableConverter` as an object whose methods update its memo
    fields and send queries through the connection. */
module Converter {
  import opened Php
  import opened Mapping
  import opened Transforms
  import opened Database
  import opened CsvReader

  // ---------------------------------------------------------------- options

  /** An entry of the options array, with the PHP types the constructor distinguishes. */
  datatype OptionValue = Text(s: string) | Number(n: int) | Flag(b: bool) | Missing

  /** `$options[...] || false`: PHP truthiness of an option. */
  predicate OptionTruthy(v: OptionValue)
  {
    match v
    case Text(s) => !EmptyString(s)
    case Number(n) => n != 0
    case Flag(b) => b
    case Missing => false
  }

  datatype Options = Options(
    dbTable: OptionValue,
    qid: OptionValue,
    uniquenessField: OptionValue,
    debug: OptionValue,
    preventSkipping: OptionValue)

  /** What the constructor keeps. `uniquenessField` is absent when the option is not a string. */
  datatype Config = Config(dbTable: string, uniquenessField: Option<string>, qid: int, debug: bool, preventSkipping: bool)

  datatype OptionsError = TableNotAString | QidNotAnInt

  /** The constructor's checks and assignments. The `or "startdate"` default binds looser than
      the assignment, so it never reaches the field. */
  function CheckOptions(o: Options): (r: Result<Config, OptionsError>)
    ensures r.Success? <==> o.dbTable.Text? && o.qid.Number?
    ensures r.Failure? ==> (r.error == TableNotAString <==> !o.dbTable.Text?)
    ensures r.Success? ==>
      && r.value.dbTable == o.dbTable.s && r.value.qid == o.qid.n
      && r.value.debug == OptionTruthy(o.debug) && r.value.preventSkipping == OptionTruthy(o.preventSkipping)
      && (r.value.uniquenessField.Some? <==> o.uniquenessField.Text?)
      && (o.uniquenessField.Text? ==> r.value.uniquenessField == Some(o.uniquenessField.s))
  {
    if !o.dbTable.Text? then Failure(TableNotAString)
    else if !o.qid.Number? then Failure(QidNotAnInt)
    else
      var unique := if o.uniquenessField.Text? then Some(o.uniquenessField.s) else None;
      Success(Config(o.dbTable.s, unique, o.qid.n, OptionTruthy(o.debug), OptionTruthy(o.preventSkipping)))
  }

  /** The key the duplicate check reads: a missing uniqueness field indexes with null, which
      PHP turns into the empty key. */
  function UniquenessKey(config: Config): string
  {
    if config.uniquenessField.Some? then config.uniquenessField.value else ""
  }

  /** Leaving out `uniqueness_field` does not select "startdate": the check uses the empty key. */
  lemma UniquenessDefaultLost(o: Options)
    requires o.dbTable.Text? && o.qid.Number? && !o.uniquenessField.Text?
    ensures UniquenessKey(CheckOptions(o).value) == ""
  {
  }

  // ---------------------------------------------------------------- stops

  /** The `die()` calls of `run` and the methods it calls. */
  datatype Fatal =
    | ColumnsRejected(reason: ResolveError)
    | NotAFunction(name: string)
    | UnsupportedCallback(name: string)
    | WrongColumnCount(cells: nat, headers: nat)
    | InsertFailed(message: string)

  // ---------------------------------------------------------------- one row's cells

  /** The cells built for the keys so far, and the memo after their transforms. */
  datatype Cells = Cells(values: seq<Value>, memo: Memo)

  /** The value the column loop computes for one key: the input cell (or the fixed content),
      through the named transform, and the memo after it. */
  function CellValue(entry: (string, Rule), row: seq<string>, indexes: map<string, Index>, svc: Services, memo: Memo): (r: Result<Lookup, Fatal>)
    ensures r.Failure? <==> entry.1.transform.Some? && !FindMethod(entry.1.transform.value).TransformMethod?
    ensures r.Failure? ==> r.error == (if FindMethod(entry.1.transform.value).StructuralMethod?
      then UnsupportedCallback(entry.1.transform.value) else NotAFunction(entry.1.transform.value))
    // fixed content takes the place of the input cell; without a method the value is kept
    // and the memo is untouched, with one the method's result replaces it
    ensures entry.1.transform.None? ==>
      r == Success(Lookup(if entry.1.content.Some? then Str(entry.1.content.value) else Cell(row, indexes, entry.0), memo))
    ensures entry.1.transform.Some? && FindMethod(entry.1.transform.value).TransformMethod? ==>
      r == Success(ApplyTransform(FindMethod(entry.1.transform.value).t,
        if entry.1.content.Some? then Str(entry.1.content.value) else Cell(row, indexes, entry.0),
        row, indexes, svc, memo))
  {
    var (key, rule) := entry;
    var base := if rule.content.Some? then Str(rule.content.value) else Cell(row, indexes, key);
    if rule.transform.None? then Success(Lookup(base, memo))
    else match FindMethod(rule.transform.value)
      case TransformMethod(t) => Success(ApplyTransform(t, base, row, indexes, svc, memo))
      case StructuralMethod => Failure(UnsupportedCallback(rule.transform.value))
      case NoSuchMethod => Failure(NotAFunction(rule.transform.value))
  }

  /** One pass of the column loop: the key's value is appended when it has an output header. */
  function CellStep(entry: (string, Rule), row: seq<string>, indexes: map<string, Index>, svc: Services, acc: Cells): Result<Cells, Fatal>
  {
    match CellValue(entry, row, indexes, svc, acc.memo)
    case Failure(f) => Failure(f)
    case Success(l) =>
      Success(Cells(if entry.1.outputHeader.Some? then acc.values + [l.result] else acc.values, l.memo))
  }

  /** The column loop after its first `n` keys. */
  function CellsPrefix(rules: seq<(string, Rule)>, n: nat, row: seq<string>, indexes: map<string, Index>, svc: Services, memo: Memo): (r: Result<Cells, Fatal>)
    requires n <= |rules|
    ensures r.Failure? ==> r.error.NotAFunction? || r.error.UnsupportedCallback?
  {
    if n == 0 then Success(Cells([], memo))
    else match CellsPrefix(rules, n - 1, row, indexes, svc, memo)
      case Failure(f) => Failure(f)
      case Success(acc) => CellStep(rules[n - 1], row, indexes, svc, acc)
  }

  /** A row's output: the concatenated columns first, then one cell per output header. */
  function RowCells(cols: Columns, row: seq<string>, indexes: map<string, Index>, svc: Services, memo: Memo): Result<Cells, Fatal>
  {
    match CellsPrefix(cols.rules, |cols.rules|, row, indexes, svc, memo)
    case Failure(f) => Failure(f)
    case Success(c) => Success(Cells(ConcatCells(ConcatSets(cols), row, indexes) + c.values, c.memo))
  }

  lemma {:induction false} CellsPrefixStops(rules: seq<(string, Rule)>, n: nat, m: nat, row: seq<string>, indexes: map<string, Index>, svc: Services, memo: Memo)
    requires n <= m <= |rules| && CellsPrefix(rules, n, row, indexes, svc, memo).Failure?
    ensures CellsPrefix(rules, m, row, indexes, svc, memo) == CellsPrefix(rules, n, row, indexes, svc, memo)
    decreases m
  {
    if m > n {
      CellsPrefixStops(rules, n, m - 1, row, indexes, svc, memo);
    }
  }

  /** The column loop emits exactly one cell per declared output header. */
  lemma {:induction false} CellsPrefixLength(rules: seq<(string, Rule)>, n: nat, row: seq<string>, indexes: map<string, Index>, svc: Services, memo: Memo)
    requires n <= |rules| && CellsPrefix(rules, n, row, indexes, svc, memo).Success?
    ensures |CellsPrefix(rules, n, row, indexes, svc, memo).value.values| == |DeclaredOutputHeaders(rules[..n])|
  {
    if n > 0 {
      var acc := CellsPrefix(rules, n - 1, row, indexes, svc, memo);
      assert acc.Success?;
      CellsPrefixLength(rules, n - 1, row, indexes, svc, memo);
      assert rules[..n][..n - 1] == rules[..n - 1];
      var rule := rules[n - 1].1;
      assert DeclaredOutputHeaders(rules[..n]) ==
        DeclaredOutputHeaders(rules[..n - 1]) + (if rule.outputHeader.Some? then [rule.outputHeader.value] else []);
      assert CellsPrefix(rules, n, row, indexes, svc, memo) == CellStep(rules[n - 1], row, indexes, svc, acc.value);
    }
  }

  /** Where the i-th key's cell goes among the keyed cells: after one cell for each output
      header declared before it. */
  function Slot(rules: seq<(string, Rule)>, i: nat): nat
    requires i <= |rules|
  {
    |DeclaredOutputHeaders(rules[..i])|
  }

  /** The `i`-th key has an output header, and among the first `n` keys' cells its cell sits
      at its slot, where its header sits among the declared output headers, holding what
      `CellValue` computes for the key with the memo left by the keys before it. */
  ghost predicate KeyCellAt(rules: seq<(string, Rule)>, n: nat, i: nat, row: seq<string>, indexes: map<string, Index>, svc: Services, memo: Memo)
    requires i < n <= |rules|
  {
    && rules[i].1.outputHeader.Some?
    && CellsPrefix(rules, n, row, indexes, svc, memo).Success?
    && CellsPrefix(rules, i, row, indexes, svc, memo).Success?
    && CellValue(rules[i], row, indexes, svc, CellsPrefix(rules, i, row, indexes, svc, memo).value.memo).Success?
    && Slot(rules, i) < |CellsPrefix(rules, n, row, indexes, svc, memo).value.values|
    && Slot(rules, i) < |DeclaredOutputHeaders(rules[..n])|
    && DeclaredOutputHeaders(rules[..n])[Slot(rules, i)] == rules[i].1.outputHeader.value
    && CellsPrefix(rules, n, row, indexes, svc, memo).value.values[Slot(rules, i)] ==
       CellValue(rules[i], row, indexes, svc, CellsPrefix(rules, i, row, indexes, svc, memo).value.memo).value.result
  }

  /** Some key among the first `n` has an output header and its cell at slot `j`. */
  ghost predicate SlotTaken(rules: seq<(string, Rule)>, n: nat, j: nat)
    requires n <= |rules|
  {
    exists i :: 0 <= i < n && rules[i].1.outputHeader.Some? && Slot(rules, i) == j
  }

  /** A later key leaves an earlier key's cell where it was. */
  lemma KeyCellKept(rules: seq<(string, Rule)>, n: nat, i: nat, row: seq<string>, indexes: map<string, Index>, svc: Services, memo: Memo)
    requires i < n - 1 && 0 < n <= |rules|
    requires KeyCellAt(rules, n - 1, i, row, indexes, svc, memo) && CellsPrefix(rules, n, row, indexes, svc, memo).Success?
    ensures KeyCellAt(rules, n, i, row, indexes, svc, memo)
  {
    var acc := CellsPrefix(rules, n - 1, row, indexes, svc, memo).value;
    var values := CellsPrefix(rules, n, row, indexes, svc, memo).value.values;
    DeclaredStep(rules, n);
    assert CellsPrefix(rules, n, row, indexes, svc, memo) == CellStep(rules[n - 1], row, indexes, svc, acc);
    assert values[..|acc.values|] == acc.values;
    assert values[Slot(rules, i)] == acc.values[Slot(rules, i)];
  }

  /** A key with an output header puts its cell at the end, under its own header. */
  lemma KeyCellAdded(rules: seq<(string, Rule)>, n: nat, row: seq<string>, indexes: map<string, Index>, svc: Services, memo: Memo)
    requires 0 < n <= |rules| && rules[n - 1].1.outputHeader.Some?
    requires CellsPrefix(rules, n, row, indexes, svc, memo).Success?
    ensures KeyCellAt(rules, n, n - 1, row, indexes, svc, memo)
    ensures Slot(rules, n - 1) == |CellsPrefix(rules, n - 1, row, indexes, svc, memo).value.values|
  {
    var acc := CellsPrefix(rules, n - 1, row, indexes, svc, memo).value;
    CellsPrefixLength(rules, n - 1, row, indexes, svc, memo);
    DeclaredStep(rules, n);
    assert CellsPrefix(rules, n, row, indexes, svc, memo) == CellStep(rules[n - 1], row, indexes, svc, acc);
  }

  /** The column loop emits the keys' cells in key order: the cell of every key with an
      output header sits at its slot, under its header (`KeyCellAt`). */
  lemma {:induction false} CellsPrefixAligned(rules: seq<(string, Rule)>, n: nat, row: seq<string>, indexes: map<string, Index>, svc: Services, memo: Memo)
    requires n <= |rules| && CellsPrefix(rules, n, row, indexes, svc, memo).Success?
    ensures forall i :: 0 <= i < n && rules[i].1.outputHeader.Some? ==> KeyCellAt(rules, n, i, row, indexes, svc, memo)
  {
    if n > 0 {
      assert CellsPrefix(rules, n - 1, row, indexes, svc, memo).Success?;
      CellsPrefixAligned(rules, n - 1, row, indexes, svc, memo);
      forall i | 0 <= i < n && rules[i].1.outputHeader.Some? ensures KeyCellAt(rules, n, i, row, indexes, svc, memo) {
        if i < n - 1 {
          KeyCellKept(rules, n, i, row, indexes, svc, memo);
        } else {
          KeyCellAdded(rules, n, row, indexes, svc, memo);
        }
      }
    }
  }

  /** Every cell the column loop emits is the cell of a key with an output header. */
  lemma {:induction false} CellsPrefixSlotsTaken(rules: seq<(string, Rule)>, n: nat, row: seq<string>, indexes: map<string, Index>, svc: Services, memo: Memo)
    requires n <= |rules| && CellsPrefix(rules, n, row, indexes, svc, memo).Success?
    ensures forall j :: 0 <= j < |CellsPrefix(rules, n, row, indexes, svc, memo).value.values| ==> SlotTaken(rules, n, j)
  {
    if n > 0 {
      var acc := CellsPrefix(rules, n - 1, row, indexes, svc, memo).value;
      var values := CellsPrefix(rules, n, row, indexes, svc, memo).value.values;
      CellsPrefixSlotsTaken(rules, n - 1, row, indexes, svc, memo);
      assert CellsPrefix(rules, n, row, indexes, svc, memo) == CellStep(rules[n - 1], row, indexes, svc, acc);
      forall j | 0 <= j < |values| ensures SlotTaken(rules, n, j) {
        if j < |acc.values| {
          assert SlotTaken(rules, n - 1, j);
          var i :| 0 <= i < n - 1 && rules[i].1.outputHeader.Some? && Slot(rules, i) == j;
          assert 0 <= i < n && rules[i].1.outputHeader.Some? && Slot(rules, i) == j;
        } else {
          KeyCellAdded(rules, n, row, indexes, svc, memo);
          assert rules[n - 1].1.outputHeader.Some? && Slot(rules, n - 1) == j;
        }
      }
    }
  }

  /** The transforms keep the memo faithful to the answer lists over a whole row. */
  lemma {:induction false} CellsPrefixKeepsMemoFaithful(rules: seq<(string, Rule)>, n: nat, row: seq<string>, indexes: map<string, Index>, svc: Services, memo: Memo)
    requires n <= |rules| && MemoFaithful(memo, svc) && CellsPrefix(rules, n, row, indexes, svc, memo).Success?
    ensures MemoFaithful(CellsPrefix(rules, n, row, indexes, svc, memo).value.memo, svc)
  {
    if n > 0 {
      CellsPrefixKeepsMemoFaithful(rules, n - 1, row, indexes, svc, memo);
      var acc := CellsPrefix(rules, n - 1, row, indexes, svc, memo).value;
      var (key, rule) := rules[n - 1];
      if rule.transform.Some? && FindMethod(rule.transform.value).TransformMethod? {
        var base := if rule.content.Some? then Str(rule.content.value) else Cell(row, indexes, key);
        ApplyTransformKeepsMemoFaithful(FindMethod(rule.transform.value).t, base, row, indexes, svc, acc.memo);
        assert CellValue(rules[n - 1], row, indexes, svc, acc.memo)
          == Success(ApplyTransform(FindMethod(rule.transform.value).t, base, row, indexes, svc, acc.memo));
      }
    }
  }

  /** With distinct keys and a successful resolution, a converted row has exactly as many
      cells as there are output headers: the column-count check never stops the run. */
  lemma WrongColumnCountNeverHappens(cols: Columns, inputHeaders: seq<string>, row: seq<string>, svc: Services, memo: Memo)
    requires KeysDistinct(cols) && Resolve(cols, inputHeaders).Success?
    requires RowCells(cols, row, Resolve(cols, inputHeaders).value.indexes, svc, memo).Success?
    ensures var res := Resolve(cols, inputHeaders).value;
      |RowCells(cols, row, res.indexes, svc, memo).value.values| == |res.outputHeaders|
  {
    var res := Resolve(cols, inputHeaders).value;
    ResolveMeaning(cols, inputHeaders);
    ConcatAligned(ConcatSets(cols), row, res.indexes);
    CellsPrefixLength(cols.rules, |cols.rules|, row, res.indexes, svc, memo);
    assert cols.rules[..|cols.rules|] == cols.rules;
  }

  /** A converted row is the joined concatenation sets under the concatenation headers,
      followed by the keys' cells under the declared output headers. */
  lemma RowCellsSplit(cols: Columns, inputHeaders: seq<string>, row: seq<string>, svc: Services, memo: Memo)
    requires KeysDistinct(cols) && Resolve(cols, inputHeaders).Success?
    requires RowCells(cols, row, Resolve(cols, inputHeaders).value.indexes, svc, memo).Success?
    ensures var res := Resolve(cols, inputHeaders).value;
      var cells := RowCells(cols, row, res.indexes, svc, memo).value.values;
      var sets := ConcatSets(cols);
      && |sets| <= |cells| == |res.outputHeaders|
      && res.outputHeaders[..|sets|] == ConcatHeaders(sets)
      && cells[..|sets|] == ConcatCells(sets, row, res.indexes)
      && res.outputHeaders[|sets|..] == DeclaredOutputHeaders(cols.rules[..|cols.rules|])
      && cells[|sets|..] == CellsPrefix(cols.rules, |cols.rules|, row, res.indexes, svc, memo).value.values
  {
    var res := Resolve(cols, inputHeaders).value;
    var sets := ConcatSets(cols);
    ResolveMeaning(cols, inputHeaders);
    ConcatAligned(sets, row, res.indexes);
    CellsPrefixLength(cols.rules, |cols.rules|, row, res.indexes, svc, memo);
    assert cols.rules[..|cols.rules|] == cols.rules;
  }

  /** Every cell of a converted row sits under its output header: first the joined
      concatenation sets, last declared first, then the cell of each key with an output header,
      holding what `CellValue` computes for it; and every later cell is such a key's. */
  lemma RowCellsAligned(cols: Columns, inputHeaders: seq<string>, row: seq<string>, svc: Services, memo: Memo)
    requires KeysDistinct(cols) && Resolve(cols, inputHeaders).Success?
    requires RowCells(cols, row, Resolve(cols, inputHeaders).value.indexes, svc, memo).Success?
    ensures var res := Resolve(cols, inputHeaders).value;
      var cells := RowCells(cols, row, res.indexes, svc, memo).value.values;
      var sets := ConcatSets(cols);
      var rules := cols.rules;
      && |sets| <= |cells| == |res.outputHeaders|
      && (forall k :: 0 <= k < |sets| ==>
            && res.outputHeaders[k] == sets[|sets| - 1 - k].outputHeader
            && cells[k] == Str(JoinSet(sets[|sets| - 1 - k], row, res.indexes)))
      && (forall i :: 0 <= i < |rules| && rules[i].1.outputHeader.Some? ==>
            && KeyCellAt(rules, |rules|, i, row, res.indexes, svc, memo)
            && |sets| + Slot(rules, i) < |cells|
            && res.outputHeaders[|sets| + Slot(rules, i)] == rules[i].1.outputHeader.value
            && cells[|sets| + Slot(rules, i)] ==
               CellValue(rules[i], row, res.indexes, svc, CellsPrefix(rules, i, row, res.indexes, svc, memo).value.memo).value.result)
      && (forall j :: 0 <= j < |cells| - |sets| ==> SlotTaken(rules, |rules|, j))
  {
    var res := Resolve(cols, inputHeaders).value;
    var sets := ConcatSets(cols);
    var rules := cols.rules;
    var keyed := CellsPrefix(rules, |rules|, row, res.indexes, svc, memo).value.values;
    var cells := RowCells(cols, row, res.indexes, svc, memo).value.values;
    var headers := res.outputHeaders;
    RowCellsSplit(cols, inputHeaders, row, svc, memo);
    ConcatAligned(sets, row, res.indexes);
    CellsPrefixAligned(rules, |rules|, row, res.indexes, svc, memo);
    CellsPrefixSlotsTaken(rules, |rules|, row, res.indexes, svc, memo);
    forall k | 0 <= k < |sets|
      ensures headers[k] == sets[|sets| - 1 - k].outputHeader
      ensures cells[k] == Str(JoinSet(sets[|sets| - 1 - k], row, res.indexes))
    {
      assert headers[k] == headers[..|sets|][k];
      assert cells[k] == cells[..|sets|][k];
    }
    forall i | 0 <= i < |rules| && rules[i].1.outputHeader.Some?
      ensures |sets| + Slot(rules, i) < |cells|
      ensures headers[|sets| + Slot(rules, i)] == rules[i].1.outputHeader.value
      ensures cells[|sets| + Slot(rules, i)] == keyed[Slot(rules, i)]
    {
      assert KeyCellAt(rules, |rules|, i, row, res.indexes, svc, memo);
      assert headers[|sets| + Slot(rules, i)] == headers[|sets|..][Slot(rules, i)];
      assert cells[|sets| + Slot(rules, i)] == cells[|sets|..][Slot(rules, i)];
    }
  }

  // ---------------------------------------------------------------- queries

  /** `$columns[$key]['output_header']`: the output header of the key's rule, null when the key
      has no rule or the rule has no output header. */
  function OutputHeaderOf(rules: seq<(string, Rule)>, key: string): (v: Value)
    ensures v.Str? ==> exists i :: 0 <= i < |rules| && rules[i].0 == key && rules[i].1.outputHeader == Some(v.s)
    ensures (forall i :: 0 <= i < |rules| ==> rules[i].0 != key) ==> v == Null
    ensures forall i :: 0 <= i < |rules| && rules[i].0 == key && (forall j :: 0 <= j < i ==> rules[j].0 != key) ==>
      v == (if rules[i].1.outputHeader.Some? then Str(rules[i].1.outputHeader.value) else Null)
    ensures v != False
  {
    if |rules| == 0 then Null
    else if rules[0].0 == key then
      (if rules[0].1.outputHeader.Some? then Str(rules[0].1.outputHeader.value) else Null)
    else
      var v := OutputHeaderOf(rules[1..], key);
      assert v.Str? ==> exists i :: 0 <= i < |rules| && rules[i].0 == key && rules[i].1.outputHeader == Some(v.s) by {
        if v.Str? {
          var i :| 0 <= i < |rules[1..]| && rules[1..][i].0 == key && rules[1..][i].1.outputHeader == Some(v.s);
          assert rules[i + 1] == rules[1..][i];
        }
      }
      assert (forall i :: 0 <= i < |rules| ==> rules[i].0 != key) ==> (forall i :: 0 <= i < |rules[1..]| ==> rules[1..][i].0 != key) by {
        if forall i :: 0 <= i < |rules| ==> rules[i].0 != key {
          forall i | 0 <= i < |rules[1..]| ensures rules[1..][i].0 != key {
            assert rules[1..][i] == rules[i + 1];
          }
        }
      }
      forall i | 0 <= i < |rules| && rules[i].0 == key && (forall j :: 0 <= j < i ==> rules[j].0 != key)
        ensures v == (if rules[i].1.outputHeader.Some? then Str(rules[i].1.outputHeader.value) else Null)
      {
        assert rules[1..][i - 1] == rules[i];
        forall j | 0 <= j < i - 1 ensures rules[1..][j].0 != key {
          assert rules[1..][j] == rules[j + 1];
        }
      }
      v
  }

  /** `row_exists_in_db`'s query: the uniqueness cell, converted to SQL date form, compared
      with the column that key is uploaded to. */
  function ExistsQuery(config: Config, toSql: string -> string, cols: Columns, row: seq<string>, indexes: map<string, Index>): string
  {
    var key := UniquenessKey(config);
    var date := AsString(DateToSql(Cell(row, indexes, key), toSql));
    var column := AsString(OutputHeaderOf(cols.rules, key));
    "SELECT " + column + " FROM `" + config.dbTable + "` WHERE " + column + " = '" + date + "'"
  }

  /** The store holds a matching row: some rows came back. A failed query counts as no match. */
  predicate IsDuplicate(r: Reply)
  {
    r.Rows? && r.count > 0
  }

  predicate IsSelect(q: string)
  {
    |q| >= 7 && q[..7] == "SELECT "
  }

  /** Without a uniqueness field and without a key "", the duplicate check compares an empty
      column name with an empty date, whatever the row holds. That is not valid SQL: the store
      answers with an error, which counts as no duplicate. */
  lemma {:induction false} MissingUniquenessFieldQueriesEmptyColumn(config: Config, toSql: string -> string, cols: Columns, inputHeaders: seq<string>, row: seq<string>)
    requires config.uniquenessField.None?
    requires KeysDistinct(cols) && Resolve(cols, inputHeaders).Success?
    requires forall i :: 0 <= i < |cols.rules| ==> cols.rules[i].0 != ""
    ensures ExistsQuery(config, toSql, cols, row, Resolve(cols, inputHeaders).value.indexes) ==
      "SELECT  FROM `" + config.dbTable + "` WHERE  = ''"
  {
    var indexes := Resolve(cols, inputHeaders).value.indexes;
    ResolveMeaning(cols, inputHeaders);
    assert "" !in indexes by {
      assert IndexesFor(cols.rules, inputHeaders, indexes);
      assert !exists i :: 0 <= i < |cols.rules| && cols.rules[i].0 == "" && cols.rules[i].1.inputHeader.Some?;
    }
    assert Cell(row, indexes, "") == Null;
    assert OutputHeaderOf(cols.rules, "") == Null;
  }

  /** Every value, through `real_escape_string` (null and false escape as ""). */
  function Escaped(values: seq<Value>, escape: string -> string): (r: seq<string>)
    ensures |r| == |values| && forall i :: 0 <= i < |values| ==> r[i] == escape(AsString(values[i]))
  {
    seq(|values|, i requires 0 <= i < |values| => escape(AsString(values[i])))
  }

  // ---------------------------------------------------------------- the run as functions

  /** What the run depends on besides the columns: the configuration, the transforms'
      services, the CSV line parser, the store's answers and its escaping. */
  datatype Env = Env(
    config: Config,
    svc: Services,
    parse: string -> seq<string>,
    reply: seq<string> -> Reply,
    escape: string -> string)

  /** The state a run carries from row to row: the memo, the queries sent, the connection's
      last error, and the rows inserted (their count is `upload_count`). */
  datatype RunState = RunState(memo: Memo, log: seq<string>, error: string, inserted: seq<seq<Value>>)

  /** The state when the run ends, and the `die()` that ended it if any. */
  datatype Outcome = Outcome(state: RunState, stop: Option<Fatal>)

  function Send(env: Env, q: string, st: RunState): (r: RunState)
    ensures r.log == st.log + [q] && r.error == ErrorText(env.reply(r.log))
    ensures r.memo == st.memo && r.inserted == st.inserted
  {
    var log := st.log + [q];
    st.(log := log, error := ErrorText(env.reply(log)))
  }

  /** `db_insert`'s effect: the statement is sent unless in debug mode. */
  function Insert(env: Env, headers: seq<string>, values: seq<Value>, st: RunState): RunState
  {
    if env.config.debug then st
    else Send(env, InsertQuery(env.config.dbTable, headers, Escaped(values, env.escape)), st)
  }

  /** The state after the duplicate check, which `prevent_skipping` turns off. */
  function Checked(env: Env, cols: Columns, res: Resolution, row: seq<string>, st: RunState): (r: RunState)
    ensures r.memo == st.memo && r.inserted == st.inserted
  {
    if env.config.preventSkipping then st
    else Send(env, ExistsQuery(env.config, env.svc.toSql, cols, row, res.indexes), st)
  }

  /** One pass of the row loop. */
  function RowStep(env: Env, cols: Columns, res: Resolution, line: string, st: RunState): (o: Outcome)
    ensures o.stop.Some? ==> o.state.inserted == st.inserted
  {
    var row := env.parse(line);
    var checked := Checked(env, cols, res, row, st);
    if !env.config.preventSkipping && IsDuplicate(env.reply(checked.log)) then Outcome(checked, None)
    else match RowCells(cols, row, res.indexes, env.svc, checked.memo)
      case Failure(f) => Outcome(checked, Some(f))
      case Success(cells) =>
        var built := checked.(memo := cells.memo);
        if |cells.values| != |res.outputHeaders| then
          Outcome(built, Some(WrongColumnCount(|cells.values|, |res.outputHeaders|)))
        else
          var sent := Insert(env, res.outputHeaders, cells.values, built);
          if sent.error != "" then Outcome(sent, Some(InsertFailed(sent.error)))
          else Outcome(sent.(inserted := sent.inserted + [cells.values]), None)
  }

  /** The row loop over `lines`, one line after the other; a stop ends it. */
  function RunRows(env: Env, cols: Columns, res: Resolution, lines: seq<string>, st: RunState): Outcome
    decreases |lines|
  {
    if |lines| == 0 then Outcome(st, None)
    else
      var o := RowStep(env, cols, res, lines[0], st);
      if o.stop.Some? then o else RunRows(env, cols, res, lines[1..], o.state)
  }

  /** `run`: resolve the columns against the CSV headers, then convert every data line. */
  function Conversion(env: Env, cols: Columns, inputHeaders: seq<string>, data: seq<string>, st: RunState): Outcome
  {
    match Resolve(cols, inputHeaders)
    case Failure(e) => Outcome(st, Some(ColumnsRejected(e)))
    case Success(res) => RunRows(env, cols, res, data, st)
  }

  // ---------------------------------------------------------------- properties of the run

  /** A row the store already holds is skipped: only the check was sent, nothing was
      inserted, and the run goes on. */
  lemma DuplicateRowSkipped(env: Env, cols: Columns, res: Resolution, line: string, st: RunState)
    requires !env.config.preventSkipping
    requires IsDuplicate(env.reply(st.log + [ExistsQuery(env.config, env.svc.toSql, cols, env.parse(line), res.indexes)]))
    ensures var o := RowStep(env, cols, res, line, st);
      && o.stop.None? && o.state.inserted == st.inserted && o.state.memo == st.memo
      && o.state.log == st.log + [ExistsQuery(env.config, env.svc.toSql, cols, env.parse(line), res.indexes)]
  {
  }

  /** A row counted as inserted was sent as an INSERT of its escaped cells, and the store
      reported no error for it (unless in debug mode, where nothing is sent). */
  lemma InsertedRowWasSent(env: Env, cols: Columns, res: Resolution, line: string, st: RunState)
    requires !env.config.debug
    requires var o := RowStep(env, cols, res, line, st); o.stop.None? && |o.state.inserted| > |st.inserted|
    ensures var o := RowStep(env, cols, res, line, st);
      var values := o.state.inserted[|o.state.inserted| - 1];
      && o.state.inserted == st.inserted + [values]
      && |o.state.log| > 0 && o.state.error == ""
      && o.state.log[|o.state.log| - 1] == InsertQuery(env.config.dbTable, res.outputHeaders, Escaped(values, env.escape))
  {
  }

  /** Conversely, a row that reaches `db_insert` (it is not a duplicate, its cells are built
      and their count matches) is counted exactly when the run goes on, and otherwise stops on
      the store's error; outside debug mode its INSERT is the one statement it sends after the
      duplicate check, and in debug mode it sends nothing more. */
  lemma ReachedInsertIsCounted(env: Env, cols: Columns, res: Resolution, line: string, st: RunState)
    ensures var o := RowStep(env, cols, res, line, st);
      var row := env.parse(line);
      var checked := Checked(env, cols, res, row, st);
      var cells := RowCells(cols, row, res.indexes, env.svc, checked.memo);
      !(!env.config.preventSkipping && IsDuplicate(env.reply(checked.log))) &&
      cells.Success? && |cells.value.values| == |res.outputHeaders| ==>
        && (o.stop.None? <==> o.state.inserted == st.inserted + [cells.value.values])
        && (o.stop.Some? ==> o.stop.value.InsertFailed?)
        && o.state.log == checked.log +
             (if env.config.debug then [] else [InsertQuery(env.config.dbTable, res.outputHeaders, Escaped(cells.value.values, env.escape))])
  {
  }

  /** `after` is `before` followed by SELECT statements only. */
  predicate GrowsBySelects(before: seq<string>, after: seq<string>)
  {
    && |before| <= |after| && after[..|before|] == before
    && forall k :: |before| <= k < |after| ==> IsSelect(after[k])
  }

  lemma GrowsBySelectsTrans(a: seq<string>, b: seq<string>, c: seq<string>)
    requires GrowsBySelects(a, b) && GrowsBySelects(b, c)
    ensures GrowsBySelects(a, c)
  {
    assert c[..|a|] == c[..|b|][..|a|];
    forall k | |a| <= k < |c| ensures IsSelect(c[k]) {
      if k < |b| {
        assert c[k] == b[k];
      }
    }
  }

  /** In debug mode a row sends at most its duplicate check, which is a SELECT. */
  lemma DebugRowSendsOnlySelect(env: Env, cols: Columns, res: Resolution, line: string, st: RunState)
    requires env.config.debug
    ensures var o := RowStep(env, cols, res, line, st);
      && o.state.log == st.log + (if env.config.preventSkipping then [] else [ExistsQuery(env.config, env.svc.toSql, cols, env.parse(line), res.indexes)])
      && GrowsBySelects(st.log, o.state.log)
  {
    var q := ExistsQuery(env.config, env.svc.toSql, cols, env.parse(line), res.indexes);
    assert q[..7] == "SELECT ";
    var o := RowStep(env, cols, res, line, st);
    assert o.state.log[..|st.log|] == st.log;
  }

  /** `debug` keeps the run from sending anything but SELECT statements, and with
      `prevent_skipping` as well it sends nothing at all. */
  lemma {:induction false} DebugSendsOnlySelects(env: Env, cols: Columns, res: Resolution, lines: seq<string>, st: RunState)
    requires env.config.debug
    ensures var o := RunRows(env, cols, res, lines, st);
      && GrowsBySelects(st.log, o.state.log)
      && (env.config.preventSkipping ==> o.state.log == st.log)
    decreases |lines|
  {
    if |lines| == 0 {
      assert st.log[..|st.log|] == st.log;
    } else {
      var o := RowStep(env, cols, res, lines[0], st);
      DebugRowSendsOnlySelect(env, cols, res, lines[0], st);
      if o.stop.None? {
        DebugSendsOnlySelects(env, cols, res, lines[1..], o.state);
        GrowsBySelectsTrans(st.log, o.state.log, RunRows(env, cols, res, lines[1..], o.state).state.log);
      }
    }
  }

  /** A row keeps the memo faithful: the duplicate check leaves it alone, and a row that
      builds its cells leaves the column loop's memo. */
  lemma RowStepKeepsMemoFaithful(env: Env, cols: Columns, res: Resolution, line: string, st: RunState)
    requires MemoFaithful(st.memo, env.svc)
    ensures MemoFaithful(RowStep(env, cols, res, line, st).state.memo, env.svc)
  {
    var row := env.parse(line);
    var checked := Checked(env, cols, res, row, st);
    var o := RowStep(env, cols, res, line, st);
    if !(!env.config.preventSkipping && IsDuplicate(env.reply(checked.log))) {
      var c := CellsPrefix(cols.rules, |cols.rules|, row, res.indexes, env.svc, checked.memo);
      if c.Success? {
        CellsPrefixKeepsMemoFaithful(cols.rules, |cols.rules|, row, res.indexes, env.svc, checked.memo);
        assert o.state.memo == c.value.memo;
      } else {
        assert o.state.memo == checked.memo;
      }
    }
  }

  /** The memo stays faithful over the whole row loop, so every lookup of every row meets
      the precondition of `SatisfactionMeaning` and `RegionMeaning`. */
  lemma {:induction false} RunRowsKeepsMemoFaithful(env: Env, cols: Columns, res: Resolution, lines: seq<string>, st: RunState)
    requires MemoFaithful(st.memo, env.svc)
    ensures MemoFaithful(RunRows(env, cols, res, lines, st).state.memo, env.svc)
    decreases |lines|
  {
    if |lines| > 0 {
      var o := RowStep(env, cols, res, lines[0], st);
      RowStepKeepsMemoFaithful(env, cols, res, lines[0], st);
      if o.stop.None? {
        RunRowsKeepsMemoFaithful(env, cols, res, lines[1..], o.state);
      }
    }
  }

  /** Every row has `width` cells. */
  predicate Aligned(rows: seq<seq<Value>>, width: nat)
  {
    forall k :: 0 <= k < |rows| ==> |rows[k]| == width
  }

  /** `after` is `before` followed by rows of `width` cells only. */
  predicate GrowsAligned(before: seq<seq<Value>>, after: seq<seq<Value>>, width: nat)
  {
    && |before| <= |after| && after[..|before|] == before
    && forall k :: |before| <= k < |after| ==> |after[k]| == width
  }

  lemma GrowsAlignedTrans(a: seq<seq<Value>>, b: seq<seq<Value>>, c: seq<seq<Value>>, width: nat)
    requires GrowsAligned(a, b, width) && GrowsAligned(b, c, width)
    ensures GrowsAligned(a, c, width)
  {
    assert c[..|a|] == c[..|b|][..|a|];
    forall k | |a| <= k < |c| ensures |c[k]| == width {
      if k < |b| {
        assert c[k] == b[k];
      }
    }
  }

  /** A row inserts at most one row of cells, and only one with a cell per output header. */
  lemma RowStepInsertsAligned(env: Env, cols: Columns, res: Resolution, line: string, st: RunState)
    ensures var o := RowStep(env, cols, res, line, st);
      && (|| o.state.inserted == st.inserted
          || (exists cells :: |cells| == |res.outputHeaders| && o.state.inserted == st.inserted + [cells]))
      && GrowsAligned(st.inserted, o.state.inserted, |res.outputHeaders|)
  {
    var row := env.parse(line);
    var checked := Checked(env, cols, res, row, st);
    var o := RowStep(env, cols, res, line, st);
    assert st.inserted[..|st.inserted|] == st.inserted;
    if !(!env.config.preventSkipping && IsDuplicate(env.reply(checked.log))) {
      var cells := RowCells(cols, row, res.indexes, env.svc, checked.memo);
      if cells.Success? && |cells.value.values| == |res.outputHeaders| {
        var sent := Insert(env, res.outputHeaders, cells.value.values, checked.(memo := cells.value.memo));
        assert sent.inserted == st.inserted;
        if sent.error == "" {
          assert o.state.inserted == st.inserted + [cells.value.values];
          assert o.state.inserted[..|st.inserted|] == st.inserted;
        }
      }
    }
  }

  /** A run only appends to the inserted rows, and every row it appends has one cell per
      output header. */
  lemma {:induction false} InsertedRowsAligned(env: Env, cols: Columns, res: Resolution, lines: seq<string>, st: RunState)
    ensures var o := RunRows(env, cols, res, lines, st);
      GrowsAligned(st.inserted, o.state.inserted, |res.outputHeaders|)
    decreases |lines|
  {
    if |lines| == 0 {
      assert st.inserted[..|st.inserted|] == st.inserted;
    } else {
      var o := RowStep(env, cols, res, lines[0], st);
      RowStepInsertsAligned(env, cols, res, lines[0], st);
      if o.stop.None? {
        InsertedRowsAligned(env, cols, res, lines[1..], o.state);
        GrowsAlignedTrans(st.inserted, o.state.inserted, RunRows(env, cols, res, lines[1..], o.state).state.inserted, |res.outputHeaders|);
      }
    }
  }

  /** Rows that all have `width` cells still do after a run. */
  lemma RunKeepsRowsAligned(env: Env, cols: Columns, res: Resolution, lines: seq<string>, st: RunState)
    requires Aligned(st.inserted, |res.outputHeaders|)
    ensures Aligned(RunRows(env, cols, res, lines, st).state.inserted, |res.outputHeaders|)
  {
    InsertedRowsAligned(env, cols, res, lines, st);
    var after := RunRows(env, cols, res, lines, st).state.inserted;
    forall k | 0 <= k < |st.inserted| ensures |after[k]| == |res.outputHeaders| {
      assert after[k] == after[..|st.inserted|][k];
    }
  }

  /** The column-count stop happens only when the converted row's length differs from the
      number of output headers. */
  lemma RowStepColumnCount(env: Env, cols: Columns, res: Resolution, line: string, st: RunState)
    ensures var o := RowStep(env, cols, res, line, st);
      var row := env.parse(line);
      var cells := RowCells(cols, row, res.indexes, env.svc, Checked(env, cols, res, row, st).memo);
      o.stop.Some? && o.stop.value.WrongColumnCount? ==> cells.Success? && |cells.value.values| != |res.outputHeaders|
  {
    var row := env.parse(line);
    var checked := Checked(env, cols, res, row, st);
    if !(!env.config.preventSkipping && IsDuplicate(env.reply(checked.log))) {
      var cells := RowCells(cols, row, res.indexes, env.svc, checked.memo);
      if cells.Success? && |cells.value.values| == |res.outputHeaders| {
        var sent := Insert(env, res.outputHeaders, cells.value.values, checked.(memo := cells.value.memo));
        assert RowStep(env, cols, res, line, st).stop ==
          if sent.error != "" then Some(InsertFailed(sent.error)) else None;
      }
    }
  }

  /** With distinct keys and a successful resolution, no row stops on the column-count check. */
  lemma RowNeverStopsOnColumnCount(env: Env, cols: Columns, inputHeaders: seq<string>, line: string, st: RunState)
    requires KeysDistinct(cols) && Resolve(cols, inputHeaders).Success?
    ensures var o := RowStep(env, cols, Resolve(cols, inputHeaders).value, line, st);
      !(o.stop.Some? && o.stop.value.WrongColumnCount?)
  {
    var res := Resolve(cols, inputHeaders).value;
    var row := env.parse(line);
    var memo := Checked(env, cols, res, row, st).memo;
    RowStepColumnCount(env, cols, res, line, st);
    if RowCells(cols, row, res.indexes, env.svc, memo).Success? {
      WrongColumnCountNeverHappens(cols, inputHeaders, row, env.svc, memo);
    }
  }

  /** With distinct keys and a successful resolution, no run stops on the column-count check. */
  lemma {:induction false} RunNeverStopsOnColumnCount(env: Env, cols: Columns, inputHeaders: seq<string>, lines: seq<string>, st: RunState)
    requires KeysDistinct(cols) && Resolve(cols, inputHeaders).Success?
    ensures var o := RunRows(env, cols, Resolve(cols, inputHeaders).value, lines, st);
      !(o.stop.Some? && o.stop.value.WrongColumnCount?)
    decreases |lines|
  {
    if |lines| > 0 {
      var res := Resolve(cols, inputHeaders).value;
      var o := RowStep(env, cols, res, lines[0], st);
      RowNeverStopsOnColumnCount(env, cols, inputHeaders, lines[0], st);
      if o.stop.None? {
        RunNeverStopsOnColumnCount(env, cols, inputHeaders, lines[1..], o.state);
      }
    }
  }

  /** Columns that do not resolve stop the run before any query is sent or row inserted. */
  lemma ColumnsRejectedSendsNothing(env: Env, cols: Columns, inputHeaders: seq<string>, data: seq<string>, st: RunState)
    requires Resolve(cols, inputHeaders).Failure?
    ensures Conversion(env, cols, inputHeaders, data, st) == Outcome(st, Some(ColumnsRejected(Resolve(cols, inputHeaders).error)))
  {
  }

  // ---------------------------------------------------------------- the object

  class TableConverter {
    const config: Config
    const svc: Services
    const reader: InputCSVReader
    const db: Database
    var satisfactionCodes: map<string, string>
    var frequency: map<string, nat>
    var regionToCode: map<string, string>

    function CurrentMemo(): Memo
      reads this
    {
      Memo(satisfactionCodes, frequency, regionToCode)
    }

    function Context(): Env
    {
      Env(config, svc, reader.parse, db.reply, db.escape)
    }

    /** Options that fail `CheckOptions` end the program in the constructor; from the others it
        keeps the checked configuration. The memo starts empty, and so faithful. */
    constructor (options: Options, reader: InputCSVReader, db: Database, svc: Services)
      requires CheckOptions(options).Success?
      ensures this.config == CheckOptions(options).value && this.reader == reader && this.db == db && this.svc == svc
      ensures CurrentMemo() == Memo(map[], map[], map[])
      ensures MemoFaithful(CurrentMemo(), svc)
    {
      this.config := CheckOptions(options).value;
      this.reader := reader;
      this.db := db;
      this.svc := svc;
      satisfactionCodes, frequency, regionToCode := map[], map[], map[];
    }

    /** The first call's query: store each answer's code under its text, and reset the
        counts. */
    method FillSatisfactionCodes()
      requires |satisfactionCodes| == 0
      modifies this
      ensures satisfactionCodes == FillCodes(svc.satisfactionAnswers) && frequency == map[]
      ensures regionToCode == old(regionToCode)
    {
      var answers := svc.satisfactionAnswers;
      assert satisfactionCodes == map[] by {
        assert satisfactionCodes.Keys == {};
      }
      var i := 0;
      while i < |answers|
        invariant 0 <= i <= |answers|
        invariant satisfactionCodes == FillCodes(answers[..i])
        invariant regionToCode == old(regionToCode)
      {
        satisfactionCodes := satisfactionCodes[answers[i].0 := answers[i].1];
        assert answers[..i + 1][..i] == answers[..i];
        i := i + 1;
      }
      assert answers[..|answers|] == answers;
      frequency := map[];
    }

    method GetSatisfactionCode(satisfaction: Value) returns (code: Value)
      modifies this
      ensures var r := SatisfactionStep(old(CurrentMemo()), svc.satisfactionAnswers, satisfaction);
        code == r.result && CurrentMemo() == r.memo
    {
      if |satisfactionCodes| == 0 {
        FillSatisfactionCodes();
      }
      var text := AsString(satisfaction);
      var titleCase := UcWords(ToLower(text));
      if text in satisfactionCodes {
        frequency := Bump(frequency, satisfactionCodes[text]);
        code := Str(satisfactionCodes[text]);
      } else if titleCase in satisfactionCodes {
        frequency := Bump(frequency, satisfactionCodes[titleCase]);
        code := Str(satisfactionCodes[titleCase]);
      } else {
        code := Str("");
      }
    }

    /** The first call's query: store each answer's code under its lower-cased text. */
    method FillRegionCodes()
      requires |regionToCode| == 0
      modifies this
      ensures regionToCode == FillCodes(LowerKeys(svc.regionAnswers))
      ensures frequency == old(frequency) && satisfactionCodes == old(satisfactionCodes)
    {
      var answers := svc.regionAnswers;
      ghost var lowered := LowerKeys(answers);
      assert regionToCode == map[] by {
        assert regionToCode.Keys == {};
      }
      var i := 0;
      while i < |answers|
        invariant 0 <= i <= |answers|
        invariant regionToCode == FillCodes(lowered[..i])
        invariant frequency == old(frequency) && satisfactionCodes == old(satisfactionCodes)
      {
        assert lowered[i] == (ToLower(answers[i].0), answers[i].1);
        regionToCode := regionToCode[ToLower(answers[i].0) := answers[i].1];
        assert lowered[..i + 1][..i] == lowered[..i];
        i := i + 1;
      }
      assert lowered[..|answers|] == lowered;
    }

    method RegionToLSCode(region: Value) returns (code: Value)
      modifies this
      ensures var r := RegionStep(old(CurrentMemo()), svc.regionAnswers, region);
        code == r.result && CurrentMemo() == r.memo
    {
      var key := NormalizeRegion(region);
      if |regionToCode| == 0 {
        FillRegionCodes();
      }
      if key in regionToCode {
        code := Str(regionToCode[key]);
      } else {
        code := False;
      }
    }

    /** `call_user_func` on one of the transforms. */
    method CallTransform(t: Transform, cell: Value, row: seq<string>, indexes: map<string, Index>) returns (v: Value)
      modifies this
      ensures var r := ApplyTransform(t, cell, row, indexes, svc, old(CurrentMemo()));
        v == r.result && CurrentMemo() == r.memo
    {
      match t {
        case Datestamp => v := Str(svc.now);
        case LastPage => v := LastPageValue(row, indexes);
        case RegionToLSCode => v := this.RegionToLSCode(cell);
        case GetSatisfactionCode => v := this.GetSatisfactionCode(cell);
        case ConvertDateToSql => v := DateToSql(cell, svc.toSql);
        case SubmitDate => v := SubmitDateValue(row, indexes, svc);
        case OverrideStatus => v := OverrideStatusValue(cell, row, indexes);
      }
    }

    /** The cells one concatenation set names, joined with its separator. */
    method JoinCells(cs: ConcatSet, row: seq<string>, indexes: map<string, Index>) returns (joined: string)
      ensures joined == JoinSet(cs, row, indexes)
    {
      var parts: seq<string> := [];
      var j := 0;
      while j < |cs.inputColumns|
        invariant 0 <= j <= |cs.inputColumns|
        invariant |parts| == j
        invariant forall k :: 0 <= k < j ==> parts[k] == AsString(Cell(row, indexes, cs.inputColumns[k]))
      {
        parts := parts + [AsString(Cell(row, indexes, cs.inputColumns[j]))];
        j := j + 1;
      }
      assert parts == seq(|cs.inputColumns|, k requires 0 <= k < |cs.inputColumns| =>
        AsString(Cell(row, indexes, cs.inputColumns[k])));
      joined := Join(cs.separator, parts);
    }

    /** Put each set's joined cells at the front of `outArr`, one set after the other in
        declaration order, so the last-declared set ends up first. */
    method ConcatenateColumns(sets: seq<ConcatSet>, row: seq<string>, indexes: map<string, Index>, outArr: seq<Value>) returns (out: seq<Value>)
      ensures out == ConcatCells(sets, row, indexes) + outArr
    {
      out := outArr;
      var i := 0;
      while i < |sets|
        invariant 0 <= i <= |sets|
        invariant out == ConcatCells(sets[..i], row, indexes) + outArr
      {
        var joined := JoinCells(sets[i], row, indexes);
        assert sets[..i + 1][..i] == sets[..i];
        assert ConcatCells(sets[..i + 1], row, indexes) == [Str(joined)] + ConcatCells(sets[..i], row, indexes);
        out := [Str(joined)] + out;
        i := i + 1;
      }
      assert sets[..|sets|] == sets;
    }

    /** One key's cell: read it, or take the fixed content, then call the named method. */
    method ComputeCell(entry: (string, Rule), row: seq<string>, indexes: map<string, Index>) returns (r: Result<Value, Fatal>)
      modifies this
      ensures var spec := CellValue(entry, row, indexes, svc, old(CurrentMemo()));
        && r.Success? == spec.Success?
        && (r.Success? ==> r.value == spec.value.result && CurrentMemo() == spec.value.memo)
        && (r.Failure? ==> r.error == spec.error)
    {
      var (key, rule) := entry;
      var cell := Cell(row, indexes, key);
      if rule.content.Some? {
        cell := Str(rule.content.value);
      }
      if rule.transform.Some? {
        var name := rule.transform.value;
        match FindMethod(name) {
          case TransformMethod(t) =>
            cell := CallTransform(t, cell, row, indexes);
          case StructuralMethod =>
            return Failure(UnsupportedCallback(name));
          case NoSuchMethod =>
            return Failure(NotAFunction(name));
        }
      }
      return Success(cell);
    }

    /** One pass of the row loop: the key's value goes to the end of `out` when the key has
        an output header. */
    method EmitCell(entry: (string, Rule), row: seq<string>, indexes: map<string, Index>, out: seq<Value>,
                    ghost front: seq<Value>, ghost acc: Cells) returns (r: Result<seq<Value>, Fatal>)
      requires out == front + acc.values && CurrentMemo() == acc.memo
      modifies this
      ensures var next := CellStep(entry, row, indexes, svc, acc);
        && r.Success? == next.Success?
        && (r.Success? ==> r.value == front + next.value.values && CurrentMemo() == next.value.memo)
        && (r.Failure? ==> r.error == next.error)
    {
      var c := ComputeCell(entry, row, indexes);
      if c.Failure? {
        return Failure(c.error);
      }
      if entry.1.outputHeader.Some? {
        return Success(out + [c.value]);
      }
      return Success(out);
    }

    /** The body of the row loop from the empty output array to the full one. */
    method ConvertRow(row: seq<string>, cols: Columns, indexes: map<string, Index>) returns (r: Result<seq<Value>, Fatal>)
      modifies this
      ensures var spec := RowCells(cols, row, indexes, svc, old(CurrentMemo()));
        && r.Success? == spec.Success?
        && (r.Success? ==> r.value == spec.value.values && CurrentMemo() == spec.value.memo)
        && (r.Failure? ==> r.error == spec.error)
    {
      ghost var memo := CurrentMemo();
      var out: seq<Value> := [];
      if cols.concat.Some? {
        out := ConcatenateColumns(cols.concat.value, row, indexes, out);
      }
      ghost var front := ConcatCells(ConcatSets(cols), row, indexes);
      ghost var acc := Cells([], memo);
      assert out == front + acc.values;
      var i := 0;
      while i < |cols.rules|
        invariant 0 <= i <= |cols.rules|
        invariant CellsPrefix(cols.rules, i, row, indexes, svc, memo) == Success(acc)
        invariant out == front + acc.values && CurrentMemo() == acc.memo
      {
        ghost var next := CellStep(cols.rules[i], row, indexes, svc, acc);
        assert CellsPrefix(cols.rules, i + 1, row, indexes, svc, memo) == next;
        var c := EmitCell(cols.rules[i], row, indexes, out, front, acc);
        if c.Failure? {
          CellsPrefixStops(cols.rules, i + 1, |cols.rules|, row, indexes, svc, memo);
          return Failure(c.error);
        }
        out := c.value;
        acc := next.value;
        i := i + 1;
      }
      return Success(out);
    }

    method RowExistsInDb(row: seq<string>, cols: Columns, indexes: map<string, Index>) returns (duplicate: bool)
      modifies db
      ensures db.log == old(db.log) + [ExistsQuery(config, svc.toSql, cols, row, indexes)]
      ensures db.error == ErrorText(db.reply(db.log))
      ensures duplicate == IsDuplicate(db.reply(db.log))
    {
      var key := UniquenessKey(config);
      var startdate := DateToSql(Cell(row, indexes, key), svc.toSql);
      var column := AsString(OutputHeaderOf(cols.rules, key));
      var query := "SELECT " + column + " FROM `" + config.dbTable + "` WHERE " + column + " = '" + AsString(startdate) + "'";
      var result := db.Query(query);
      if result.Failed? {
        return false;
      }
      return result.count > 0;
    }

    method DbInsert(values: seq<Value>, headers: seq<string>) returns (stop: Option<Fatal>)
      modifies db
      ensures db.log == if config.debug then old(db.log)
        else old(db.log) + [InsertQuery(config.dbTable, headers, Escaped(values, db.escape))]
      ensures db.error == if config.debug then old(db.error) else ErrorText(db.reply(db.log))
      ensures stop == if db.error != "" then Some(InsertFailed(db.error)) else None
    {
      var escaped: seq<string> := [];
      var i := 0;
      while i < |values|
        invariant 0 <= i <= |values|
        invariant |escaped| == i
        invariant forall k :: 0 <= k < i ==> escaped[k] == db.escape(AsString(values[k]))
      {
        escaped := escaped + [db.escape(AsString(values[i]))];
        i := i + 1;
      }
      assert escaped == Escaped(values, db.escape);
      var query := "INSERT INTO `" + config.dbTable + "` (" + Join(", ", headers) + ") VALUES('" + Join("', '", escaped) + "');";
      query := NullifyEmpty(query);
      if !config.debug {
        var _ := db.Query(query);
      }
      if db.error != "" {
        return Some(InsertFailed(db.error));
      }
      return None;
    }

    /** One pass of the row loop; `uploaded` is the row inserted, if any. */
    method ProcessRow(line: string, cols: Columns, res: Resolution, ghost inserted: seq<seq<Value>>) returns (stop: Option<Fatal>, uploaded: Option<seq<Value>>)
      modifies this, db
      ensures var o := RowStep(Context(), cols, res, line, RunState(old(CurrentMemo()), old(db.log), old(db.error), inserted));
        && stop == o.stop && db.log == o.state.log && db.error == o.state.error
        && (stop.None? ==> CurrentMemo() == o.state.memo)
        && (stop.None? ==> o.state.inserted == inserted + (if uploaded.Some? then [uploaded.value] else []))
    {
      var row := reader.parse(line);
      if !config.preventSkipping {
        var duplicate := RowExistsInDb(row, cols, res.indexes);
        if duplicate {
          return None, None;
        }
      }
      var cells := ConvertRow(row, cols, res.indexes);
      if cells.Failure? {
        return Some(cells.error), None;
      }
      if |cells.value| != |res.outputHeaders| {
        return Some(WrongColumnCount(|cells.value|, |res.outputHeaders|)), None;
      }
      stop := DbInsert(cells.value, res.outputHeaders);
      uploaded := if stop.None? then Some(cells.value) else None;
    }

    /** Put each concatenation set's output header at the front, one set after the other in
        declaration order, so the last-declared header ends up first. */
    method PrependConcatHeaders(sets: seq<ConcatSet>, headers: seq<string>) returns (out: seq<string>)
      ensures out == ConcatHeaders(sets) + headers
    {
      out := headers;
      var j := 0;
      while j < |sets|
        invariant 0 <= j <= |sets|
        invariant out == ConcatHeaders(sets[..j]) + headers
      {
        out := [sets[j].outputHeader] + out;
        assert sets[..j + 1][..j] == sets[..j];
        j := j + 1;
      }
      assert sets[..|sets|] == sets;
    }

    /** The part of `run` before the first row: refuse an empty columns file, then index
        every key's input header and collect the output headers, the concatenation headers
        in front. */
    method ResolveColumns(cols: Columns, inputHeaders: seq<string>) returns (r: Result<Resolution, ResolveError>)
      ensures r == Resolve(cols, inputHeaders)
    {
      if cols.rules == [] && cols.concat.None? {
        return Failure(NoColumns);
      }
      var indexes: map<string, Index> := map[];
      var outputHeaders: seq<string> := [];
      var i := 0;
      while i < |cols.rules|
        invariant 0 <= i <= |cols.rules|
        invariant ResolvePrefix(cols.rules, inputHeaders, i) == Success(Resolution(indexes, outputHeaders))
      {
        assert ResolvePrefix(cols.rules, inputHeaders, i + 1) ==
          ResolveStep(cols.rules[i], inputHeaders, Resolution(indexes, outputHeaders));
        var (key, rule) := cols.rules[i];
        if rule.inputHeader.Some? {
          if key in indexes && IndexTruthy(indexes[key]) {
            ResolvePrefixStops(cols.rules, inputHeaders, i + 1, |cols.rules|);
            return Failure(DuplicateInputHeader(rule.inputHeader.value));
          }
          indexes := indexes[key := Search(inputHeaders, rule.inputHeader.value)];
        }
        if rule.outputHeader.Some? {
          if rule.outputHeader.value in outputHeaders {
            ResolvePrefixStops(cols.rules, inputHeaders, i + 1, |cols.rules|);
            return Failure(DuplicateOutputHeader(rule.outputHeader.value));
          }
          outputHeaders := outputHeaders + [rule.outputHeader.value];
        }
        i := i + 1;
      }
      if cols.concat.Some? {
        outputHeaders := PrependConcatHeaders(cols.concat.value, outputHeaders);
      } else {
        assert outputHeaders == ConcatHeaders(ConcatSets(cols)) + outputHeaders;
      }
      return Success(Resolution(indexes, outputHeaders));
    }

    /** The row loop of `run`: each data line in turn, until one stops the run. */
    method UploadRows(data: seq<string>, cols: Columns, res: Resolution) returns (uploadCount: nat, stop: Option<Fatal>)
      modifies this, db
      ensures var o := RunRows(Context(), cols, res, data,
          RunState(old(CurrentMemo()), old(db.log), old(db.error), []));
        && stop == o.stop && db.log == o.state.log && db.error == o.state.error
        && uploadCount == |o.state.inserted|
        && (stop.None? ==> CurrentMemo() == o.state.memo)
    {
      uploadCount, stop := 0, None;
      ghost var start := RunState(CurrentMemo(), db.log, db.error, []);
      ghost var inserted: seq<seq<Value>> := [];
      var k := 0;
      while k < |data|
        invariant 0 <= k <= |data|
        invariant RunRows(Context(), cols, res, data, start) ==
          RunRows(Context(), cols, res, data[k..], RunState(CurrentMemo(), db.log, db.error, inserted))
        invariant uploadCount == |inserted|
      {
        ghost var before := RunState(CurrentMemo(), db.log, db.error, inserted);
        var rowStop, uploaded := ProcessRow(data[k], cols, res, inserted);
        ghost var o := RowStep(Context(), cols, res, data[k], before);
        assert data[k..][0] == data[k] && data[k..][1..] == data[k + 1..];
        assert RunRows(Context(), cols, res, data[k..], before) ==
          if o.stop.Some? then o else RunRows(Context(), cols, res, data[k + 1..], o.state);
        if rowStop.Some? {
          return uploadCount, rowStop;
        }
        if uploaded.Some? {
          inserted := inserted + [uploaded.value];
          uploadCount := uploadCount + 1;
        }
        assert o.state == RunState(CurrentMemo(), db.log, db.error, inserted);
        k := k + 1;
      }
      assert data[k..] == [];
    }

    /** `run`: resolve the columns against the CSV headers, then convert and upload the rows;
        the result is `upload_count` and the `die()` that stopped the run, if any. */
    method Run(cols: Columns) returns (uploadCount: nat, stop: Option<Fatal>)
      requires reader.failure.None?
      modifies this, db
      ensures var o := Conversion(Context(), cols, reader.headers, reader.data,
          RunState(old(CurrentMemo()), old(db.log), old(db.error), []));
        && stop == o.stop && db.log == o.state.log && db.error == o.state.error
        && uploadCount == |o.state.inserted|
        && (stop.None? ==> CurrentMemo() == o.state.memo)
      ensures stop.None? && old(MemoFaithful(CurrentMemo(), svc)) ==> MemoFaithful(CurrentMemo(), svc)
    {
      var data := reader.GetData();
      var inputHeaders := reader.GetHeaders();
      var resolved := ResolveColumns(cols, inputHeaders);
      if resolved.Failure? {
        return 0, Some(ColumnsRejected(resolved.error));
      }
      uploadCount, stop := UploadRows(data, cols, resolved.value);
      if old(MemoFaithful(CurrentMemo(), svc)) {
        RunRowsKeepsMemoFaithful(Context(), cols, resolved.value, data,
          RunState(old(CurrentMemo()), old(db.log), old(db.error), []));
      }
    }
  }
}
