/** The PHP values and string built-ins the converter relies on, stated over `seq<char>`. */
module Php {

  datatype Option<+T> = None | Some(value: T)

  datatype Result<+T, +E> = Success(value: T) | Failure(error: E)

  /** A scalar as it flows through the converter: a string, `null` (an undefined index or an
      unset result) or the boolean `false` (what `regionToLSCode` returns on a miss). */
  datatype Value = Str(s: string) | Null | False

  /** `(string)$v`: null and false both become the empty string. This is also the key an
      array lookup uses when it is given null. */
  function AsString(v: Value): string
  {
    match v
    case Str(s) => s
    case _ => ""
  }

  /** PHP's `empty()` on a string: only "" and "0" are empty. */
  predicate EmptyString(s: string)
  {
    s == "" || s == "0"
  }

  /** PHP truthiness: null, false, "" and "0" are falsy, every other string is truthy. */
  predicate Truthy(v: Value)
  {
    v.Str? && !EmptyString(v.s)
  }

  /** `$v == ""` under PHP's loose comparison, for the values a cell can hold. */
  predicate LooselyEmpty(v: Value)
  {
    v == Null || v == False || v == Str("")
  }

  predicate Distinct<T(==)>(s: seq<T>)
  {
    forall i, j :: 0 <= i < j < |s| ==> s[i] != s[j]
  }

  function DropLast<T>(s: seq<T>): seq<T>
  {
    if |s| == 0 then s else s[..|s| - 1]
  }

  // ---------------------------------------------------------------- case

  function LowerChar(c: char): char
  {
    if 'A' <= c <= 'Z' then (c as int + 32) as char else c
  }

  function UpperChar(c: char): char
  {
    if 'a' <= c <= 'z' then (c as int - 32) as char else c
  }

  /** `strtolower`, on ASCII letters. */
  function ToLower(s: string): string
  {
    seq(|s|, i requires 0 <= i < |s| => LowerChar(s[i]))
  }

  /** The default word delimiters of `ucwords`: space, tab, CR, LF, form feed, vertical tab. */
  predicate IsWordDelimiter(c: char)
  {
    c == ' ' || c == '\t' || c == '\r' || c == '\n' || c as int == 12 || c as int == 11
  }

  /** `ucwords`: upper-case the first character and every character after a delimiter. */
  function UcWords(s: string): string
  {
    seq(|s|, i requires 0 <= i < |s| =>
      if i == 0 || IsWordDelimiter(s[i - 1]) then UpperChar(s[i]) else s[i])
  }

  // ---------------------------------------------------------------- trim

  /** The characters `trim` strips by default: space, tab, LF, CR, NUL and vertical tab. */
  predicate IsTrimChar(c: char)
  {
    c == ' ' || c == '\t' || c == '\n' || c == '\r' || c == '\0' || c as int == 11
  }

  function TrimLeft(s: string): string
    decreases |s|
  {
    if |s| > 0 && IsTrimChar(s[0]) then TrimLeft(s[1..]) else s
  }

  function TrimRight(s: string): string
    decreases |s|
  {
    if |s| > 0 && IsTrimChar(s[|s| - 1]) then TrimRight(s[..|s| - 1]) else s
  }

  /** `trim`: trim characters removed from both ends. */
  function Trim(s: string): string
  {
    TrimRight(TrimLeft(s))
  }

  /** `ltrim` keeps a suffix: it drops only trim characters, and stops at the first other one. */
  lemma {:induction false} TrimLeftMeaning(s: string)
    ensures var r := TrimLeft(s);
      && |r| <= |s| && r == s[|s| - |r|..]
      && (forall i :: 0 <= i < |s| - |r| ==> IsTrimChar(s[i]))
      && (r == [] || !IsTrimChar(r[0]))
    decreases |s|
  {
    if |s| > 0 && IsTrimChar(s[0]) {
      TrimLeftMeaning(s[1..]);
      var r := TrimLeft(s);
      forall i | 0 <= i < |s| - |r| ensures IsTrimChar(s[i]) {
        if i > 0 { assert s[i] == s[1..][i - 1]; }
      }
    }
  }

  /** `rtrim` keeps a prefix: it drops only trim characters, and stops at the last other one. */
  lemma {:induction false} TrimRightMeaning(s: string)
    ensures var r := TrimRight(s);
      && |r| <= |s| && r == s[..|r|]
      && (forall i :: |r| <= i < |s| ==> IsTrimChar(s[i]))
      && (r == [] || !IsTrimChar(r[|r| - 1]))
    decreases |s|
  {
    if |s| > 0 && IsTrimChar(s[|s| - 1]) {
      var front := s[..|s| - 1];
      TrimRightMeaning(front);
      var r := TrimRight(s);
      assert r == front[..|r|];
      forall i | |r| <= i < |s| ensures IsTrimChar(s[i]) {
        if i < |s| - 1 { assert s[i] == front[i]; }
      }
    }
  }

  /** `trim` keeps the slice of `s` between its leading and trailing trim characters, and
      neither end of what it keeps is a trim character. */
  lemma TrimMeaning(s: string)
    ensures var r := Trim(s); var start := |s| - |TrimLeft(s)|;
      && 0 <= start && start + |r| <= |s| && r == s[start..start + |r|]
      && (forall i :: 0 <= i < start ==> IsTrimChar(s[i]))
      && (forall i :: start + |r| <= i < |s| ==> IsTrimChar(s[i]))
      && (r == [] || (!IsTrimChar(r[0]) && !IsTrimChar(r[|r| - 1])))
  {
    var left := TrimLeft(s);
    TrimLeftMeaning(s);
    TrimRightMeaning(left);
    var r := Trim(s);
    var start := |s| - |left|;
    forall i | start + |r| <= i < |s| ensures IsTrimChar(s[i]) {
      assert s[i] == left[i - start];
    }
    if r != [] {
      assert r[0] == left[0];
    }
  }

  // ---------------------------------------------------------------- replace, join

  /** `str_replace(pat, rep, s)` for one non-empty pattern: a single left-to-right pass that
      replaces non-overlapping occurrences. */
  function Replace(s: string, pat: string, rep: string): string
    requires |pat| > 0
    decreases |s|
  {
    if |s| < |pat| then s
    else if s[..|pat|] == pat then rep + Replace(s[|pat|..], pat, rep)
    else [s[0]] + Replace(s[1..], pat, rep)
  }

  /** `implode(sep, parts)`. */
  function Join(sep: string, parts: seq<string>): string
  {
    if |parts| == 0 then ""
    else if |parts| == 1 then parts[0]
    else parts[0] + sep + Join(sep, parts[1..])
  }

  /** Prepending a string to the first part prepends it to the whole join. */
  lemma {:induction false} JoinExtendFirst(sep: string, x: string, parts: seq<string>)
    requires |parts| > 0
    ensures Join(sep, [x + parts[0]] + parts[1..]) == x + Join(sep, parts)
  {
    var q := [x + parts[0]] + parts[1..];
    assert q[1..] == parts[1..];
  }
}
