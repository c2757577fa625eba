/** The clean-up `InputCSVReader` applies to the lines of the input file: split on CRLF, take
    the first line as headers, drop a repeated header line, refuse empty headers, and drop the
    trailing line. Reading the file and the CSV line parser (`str_getcsv`) are not modelled:
    the reader is given the file's contents and the parser as a function. */
module CsvReader {
  import opened Php

  const CRLF: string := "\r\n"

  /** No CR immediately followed by LF anywhere in `s`. */
  predicate NoLineBreak(s: string)
  {
    forall i :: 0 <= i < |s| - 1 ==> !(s[i] == '\r' && s[i + 1] == '\n')
  }

  /** `explode("\r\n", s)`: the pieces of `s` between CRLF line breaks, scanning left to right.
      The first piece is a prefix of `s`. */
  function SplitLines(s: string): (r: seq<string>)
    ensures |r| >= 1
    ensures |r[0]| <= |s| && r[0] == s[..|r[0]|]
    decreases |s|
  {
    if |s| < 2 then [s]
    else if s[..2] == CRLF then [""] + SplitLines(s[2..])
    else
      var t := SplitLines(s[1..]);
      [[s[0]] + t[0]] + t[1..]
  }

  /** Joining the lines back with CRLF gives the original text. */
  lemma {:induction false} SplitLinesJoin(s: string)
    ensures Join(CRLF, SplitLines(s)) == s
    decreases |s|
  {
    if |s| < 2 {
    } else if s[..2] == CRLF {
      SplitLinesJoin(s[2..]);
      var rest := SplitLines(s[2..]);
      assert ([""] + rest)[1..] == rest;
      assert s == CRLF + s[2..];
    } else {
      SplitLinesJoin(s[1..]);
      JoinExtendFirst(CRLF, [s[0]], SplitLines(s[1..]));
      assert s == [s[0]] + s[1..];
    }
  }

  /** No line produced by the split contains a CRLF break. */
  lemma {:induction false} SplitLinesHaveNoBreak(s: string)
    ensures forall k :: 0 <= k < |SplitLines(s)| ==> NoLineBreak(SplitLines(s)[k])
    decreases |s|
  {
    if |s| < 2 {
    } else if s[..2] == CRLF {
      SplitLinesHaveNoBreak(s[2..]);
      var rest := SplitLines(s[2..]);
      forall k | 0 <= k < |SplitLines(s)| ensures NoLineBreak(SplitLines(s)[k]) {
        if k > 0 { assert SplitLines(s)[k] == rest[k - 1]; }
      }
    } else {
      SplitLinesHaveNoBreak(s[1..]);
      var t := SplitLines(s[1..]);
      var first := [s[0]] + t[0];
      forall i | 0 <= i < |first| - 1 ensures !(first[i] == '\r' && first[i + 1] == '\n') {
        if i == 0 {
          assert first[1] == t[0][0] == s[1];
        } else {
          assert first[i] == t[0][i - 1] && first[i + 1] == t[0][i];
        }
      }
      forall k | 0 <= k < |SplitLines(s)| ensures NoLineBreak(SplitLines(s)[k]) {
        if k > 0 { assert SplitLines(s)[k] == t[k]; }
      }
    }
  }

  datatype LoadError = EmptyFile | NoHeaders

  /** What the reader keeps: the header row and the remaining raw lines, unparsed. */
  datatype Loaded = Loaded(headers: seq<string>, data: seq<string>)

  /** The whole clean-up as one function of the file's contents.
      The trailing line is always removed: `array_filter` is handed the raw last line, a string,
      on which it yields null, so the emptiness test always passes. */
  function Load(contents: string, parse: string -> seq<string>): (r: Result<Loaded, LoadError>)
    ensures r == Failure(EmptyFile) <==> EmptyString(contents)
    ensures r.Success? ==>
      var lines := SplitLines(contents);
      && r.value.headers == parse(lines[0])
      && r.value.headers != [] && !EmptyString(r.value.headers[0])
      && r.value.data == DropLast(if |lines| >= 2 && parse(lines[1]) == r.value.headers then lines[2..] else lines[1..])
  {
    if EmptyString(contents) then Failure(EmptyFile)
    else
      var lines := SplitLines(contents);
      var headers := parse(lines[0]);
      var rest := lines[1..];
      var data := if |rest| > 0 && parse(rest[0]) == headers then rest[1..] else rest;
      assert |rest| > 0 ==> rest[0] == lines[1] && rest[1..] == lines[2..];
      if |headers| == 0 || EmptyString(headers[0]) then Failure(NoHeaders)
      else Success(Loaded(headers, DropLast(data)))
  }

  /** Load stops exactly on an empty file or an unusable header row. */
  lemma LoadFails(contents: string, parse: string -> seq<string>)
    ensures Load(contents, parse).Failure? <==>
      EmptyString(contents) ||
      (var headers := parse(SplitLines(contents)[0]); headers == [] || EmptyString(headers[0]))
  {
  }

  /** The trailer step drops exactly one line, from the end, and keeps the order of the
      others: the kept lines followed by the file's last line are a suffix of the file. */
  lemma {:induction false} LoadDropsOnlyTheLastLine(contents: string, parse: string -> seq<string>)
    requires Load(contents, parse).Success?
    ensures var lines := SplitLines(contents);
      var data := Load(contents, parse).value.data;
      (|lines| >= 3 ==> data + [lines[|lines| - 1]] == lines[|lines| - |data| - 1..]) &&
      (|lines| <= 2 ==> data == [])
  {
    var lines := SplitLines(contents);
    var data := Load(contents, parse).value.data;
    var k := if |lines| >= 2 && parse(lines[1]) == Load(contents, parse).value.headers then 2 else 1;
    assert data == DropLast(lines[k..]);
    if |lines| >= 3 {
      assert lines[k..][..|lines| - k - 1] == lines[k..|lines| - 1];
      assert data == lines[k..|lines| - 1];
      assert |lines| - |data| - 1 == k;
    }
  }

  /** The reader as an object: the constructor rewrites `data` step by step; `failure` records
      the `die()` that would have ended the program instead. */
  class InputCSVReader {
    var data: seq<string>
    var headers: seq<string>
    var failure: Option<LoadError>
    const parse: string -> seq<string>

    /** What the object holds, as the result of a load. */
    function State(): Result<Loaded, LoadError>
      reads this
    {
      if failure.Some? then Failure(failure.value) else Success(Loaded(headers, data))
    }

    constructor (contents: string, parse: string -> seq<string>)
      ensures this.parse == parse
      ensures State() == Load(contents, parse)
    {
      this.parse := parse;
      data, headers, failure := [], [], None;
      new;
      if EmptyString(contents) {
        failure := Some(EmptyFile);
      } else {
        data := SplitLines(contents);
        ghost var lines := data;
        headers := parse(data[0]);  // array_shift
        data := data[1..];
        if |data| > 0 {
          // When the file has a single line the shifted value is null; whatever is decided
          // about it, the list ends up empty, so that case is not spelled out.
          var possibleDuplicate := data[0];
          data := data[1..];
          if parse(possibleDuplicate) != headers {
            data := [possibleDuplicate] + data;  // array_unshift
            assert data == lines[1..];
          }
        }
        if |headers| == 0 || EmptyString(headers[0]) {
          failure := Some(NoHeaders);
        } else if |data| > 0 {
          data := data[..|data| - 1];  // array_pop
        }
      }
    }

    function GetHeaders(): (h: seq<string>)
      reads this
      requires failure.None?
      ensures State().Success? && State().value.headers == h
    {
      headers
    }

    function GetData(): (d: seq<string>)
      reads this
      requires failure.None?
      ensures State().Success? && State().value.data == d
    {
      data
    }
  }
}
