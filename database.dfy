/** The destination store as the converter sees it, and the text of the INSERT statement
    `db_insert` sends. The store itself is not modelled: what it answers to a query is a
    function of every query sent so far, and escaping is a function of the value. */
module Database {
  import opened Php

  /** What a query returns: the rows it found (only their number is used), or `false`
      together with an error message. */
  datatype Reply = Rows(count: nat) | Failed(message: string)

  /** The driver's `error` property after a query. */
  function ErrorText(r: Reply): string
  {
    match r
    case Rows(_) => ""
    case Failed(m) => m
  }

  /** The connection: the queries sent so far, and the error of the last one. */
  class Database {
    var log: seq<string>
    var error: string
    /** The store's answer to the last query of a history. */
    const reply: seq<string> -> Reply
    /** `real_escape_string`. */
    const escape: string -> string

    constructor (reply: seq<string> -> Reply, escape: string -> string)
      ensures log == [] && error == ""
      ensures this.reply == reply && this.escape == escape
    {
      this.reply := reply;
      this.escape := escape;
      log, error := [], "";
    }

    method Query(q: string) returns (r: Reply)
      modifies this
      ensures log == old(log) + [q]
      ensures r == reply(log) && error == ErrorText(r)
    {
      log := log + [q];
      r := reply(log);
      error := ErrorText(r);
    }
  }

  // ---------------------------------------------------------------- INSERT text

  const Quote: char := '\''
  const QuotePair: string := "''"

  /** Two quotes side by side somewhere in `s`. */
  predicate HasQuotePair(s: string)
  {
    exists i :: 0 <= i < |s| - 1 && s[i] == Quote && s[i + 1] == Quote
  }

  /** `str_replace("''", "NULL", s)`. */
  function NullifyEmpty(s: string): string
  {
    Replace(s, QuotePair, "NULL")
  }

  /** The statement `db_insert` builds from the escaped values: headers joined with ", ",
      values quoted and joined with "', '", then every "''" turned into NULL. */
  function InsertQuery(table: string, headers: seq<string>, escaped: seq<string>): string
  {
    NullifyEmpty("INSERT INTO `" + table + "` (" + Join(", ", headers) + ") VALUES('" + Join("', '", escaped) + "');")
  }

  /** The intended SQL literal of one value: NULL for the empty string, else the value quoted. */
  function SqlLiteral(v: string): string
  {
    if v == "" then "NULL" else "'" + v + "'"
  }

  function SqlLiterals(vs: seq<string>): (r: seq<string>)
    ensures |r| == |vs| && forall i :: 0 <= i < |vs| ==> r[i] == SqlLiteral(vs[i])
  {
    seq(|vs|, i requires 0 <= i < |vs| => SqlLiteral(vs[i]))
  }

  /** A value the replacement leaves alone: it cannot close or open a quote pair. */
  predicate PlainValue(v: string)
  {
    !HasQuotePair(v) && (v == "" || (v[0] != Quote && v[|v| - 1] != Quote))
  }

  lemma {:induction false} ReplaceWithoutPair(s: string)
    requires !HasQuotePair(s)
    ensures NullifyEmpty(s) == s
    decreases |s|
  {
    if |s| >= 2 {
      assert !(s[0] == Quote && s[1] == Quote);
      assert s[..2] != QuotePair;
      var t := s[1..];
      forall i | 0 <= i < |t| - 1 ensures !(t[i] == Quote && t[i + 1] == Quote) {
        assert t[i] == s[i + 1] && t[i + 1] == s[i + 2];
      }
      ReplaceWithoutPair(s[1..]);
      assert s == [s[0]] + s[1..];
    }
  }

  /** The replacement works piece by piece when no pair straddles the joint. */
  lemma {:induction false} ReplaceConcat(a: string, b: string)
    requires a == [] || b == [] || a[|a| - 1] != Quote || b[0] != Quote
    ensures NullifyEmpty(a + b) == NullifyEmpty(a) + NullifyEmpty(b)
    decreases |a|
  {
    if |a| == 0 {
      assert a + b == b;
    } else if |a| == 1 {
      if |b| >= 1 {
        assert (a + b)[..2] != QuotePair by { assert (a + b)[..2] == [a[0], b[0]]; }
        assert (a + b)[1..] == b;
      } else {
        assert a + b == a;
      }
    } else if a[..2] == QuotePair {
      assert (a + b)[..2] == a[..2];
      assert (a + b)[2..] == a[2..] + b;
      ReplaceConcat(a[2..], b);
    } else {
      assert (a + b)[..2] == a[..2];
      assert (a + b)[1..] == a[1..] + b;
      ReplaceConcat(a[1..], b);
    }
  }

  /** A value between quotes comes out as its SQL literal. */
  lemma {:induction false} QuotedValue(v: string)
    requires PlainValue(v)
    ensures NullifyEmpty("'" + v + "'") == SqlLiteral(v)
  {
    if v == "" {
      assert "'" + v + "'" == QuotePair;
    } else {
      ReplaceWithoutPair(v);
      ReplaceConcat("'", v + "'");
      ReplaceConcat(v, "'");
      assert "'" + v + "'" == "'" + (v + "'");
    }
  }

  /** The quoted join splits after its first value. */
  lemma QuotedJoinSplit(vs: seq<string>)
    requires |vs| > 1
    ensures "'" + Join("', '", vs) + "'" == ("'" + vs[0] + "'") + ", " + ("'" + Join("', '", vs[1..]) + "'")
  {
    var q: string := "'";
    var a := vs[0];
    var j := Join("', '", vs[1..]);
    assert Join("', '", vs) == a + "', '" + j;
    assert "', '" == q + ", " + q;
    calc {
      q + (a + (q + ", " + q) + j) + q;
      (q + a + q) + ", " + (q + j + q);
    }
  }

  /** Joining quoted values with "', '" and replacing pairs gives the literals joined with ", ".
      No values at all leave the two quotes alone, and they become NULL. */
  lemma {:induction false} QuotedValues(vs: seq<string>)
    requires forall i :: 0 <= i < |vs| ==> PlainValue(vs[i])
    ensures |vs| > 0 ==> NullifyEmpty("'" + Join("', '", vs) + "'") == Join(", ", SqlLiterals(vs))
    ensures |vs| == 0 ==> NullifyEmpty("'" + Join("', '", vs) + "'") == "NULL"
    decreases |vs|
  {
    if |vs| == 0 {
      assert "'" + Join("', '", vs) + "'" == QuotePair;
      assert NullifyEmpty(QuotePair) == "NULL";
      return;
    }
    QuotedValue(vs[0]);
    if |vs| > 1 {
      var rest := vs[1..];
      assert forall i :: 0 <= i < |rest| ==> PlainValue(rest[i]) by {
        forall i | 0 <= i < |rest| ensures PlainValue(rest[i]) {
          assert rest[i] == vs[i + 1];
        }
      }
      QuotedValues(rest);
      var head := "'" + vs[0] + "'";
      var tail := "'" + Join("', '", rest) + "'";
      QuotedJoinSplit(vs);
      ReplaceConcat(head + ", ", tail);
      ReplaceConcat(head, ", ");
      ReplaceWithoutPair(", ");
      var lits := SqlLiterals(vs);
      assert lits[1..] == SqlLiterals(rest);
      assert Join(", ", lits) == lits[0] + ", " + Join(", ", lits[1..]);
    }
  }

  /** When the table, the headers and the escaped values cannot form a quote pair by
      themselves, the statement is the intended one: every empty value becomes NULL and every
      other value is quoted. A row with no values still gets one: its two quotes become NULL. */
  lemma {:induction false} InsertQueryMeaning(table: string, headers: seq<string>, escaped: seq<string>)
    requires Quote !in table && forall h :: h in headers ==> Quote !in h
    requires forall i :: 0 <= i < |escaped| ==> PlainValue(escaped[i])
    ensures |escaped| > 0 ==>
      InsertQuery(table, headers, escaped) ==
      "INSERT INTO `" + table + "` (" + Join(", ", headers) + ") VALUES(" + Join(", ", SqlLiterals(escaped)) + ");"
    ensures |escaped| == 0 ==>
      InsertQuery(table, headers, escaped) ==
      "INSERT INTO `" + table + "` (" + Join(", ", headers) + ") VALUES(NULL);"
  {
    var front := "INSERT INTO `" + table + "` (" + Join(", ", headers) + ") VALUES(";
    var values := "'" + Join("', '", escaped) + "'";
    assert "INSERT INTO `" + table + "` (" + Join(", ", headers) + ") VALUES('" + Join("', '", escaped) + "');"
      == front + values + ");";
    JoinHasNoQuote(", ", headers);
    assert !HasQuotePair(front) by {
      assert Quote !in front;
    }
    ReplaceWithoutPair(front);
    ReplaceWithoutPair(");");
    QuotedValues(escaped);
    ReplaceConcat(front + values, ");");
    ReplaceConcat(front, values);
  }

  lemma {:induction false} JoinHasNoQuote(sep: string, parts: seq<string>)
    requires Quote !in sep && forall p :: p in parts ==> Quote !in p
    ensures Quote !in Join(sep, parts)
    decreases |parts|
  {
    if |parts| > 1 {
      JoinHasNoQuote(sep, parts[1..]);
    }
  }

  /** The replacement leaves no quote pair behind. */
  lemma {:induction false} NullifyLeavesNoPair(s: string)
    ensures !HasQuotePair(NullifyEmpty(s))
    decreases |s|
  {
    if |s| < 2 {
    } else if s[..2] == QuotePair {
      NullifyLeavesNoPair(s[2..]);
      NoPairAcross("NULL", NullifyEmpty(s[2..]));
    } else {
      NullifyLeavesNoPair(s[1..]);
      if s[1] != Quote {
        NullifyKeepsFirst(s[1..]);
      }
      NoPairAcross([s[0]], NullifyEmpty(s[1..]));
    }
  }

  /** A string that does not start with a quote keeps its first character. */
  lemma NullifyKeepsFirst(s: string)
    requires |s| > 0 && s[0] != Quote
    ensures |NullifyEmpty(s)| > 0 && NullifyEmpty(s)[0] == s[0]
  {
  }

  lemma NoPairAcross(a: string, b: string)
    requires !HasQuotePair(a) && !HasQuotePair(b)
    requires a == [] || b == [] || a[|a| - 1] != Quote || b[0] != Quote
    ensures !HasQuotePair(a + b)
  {
    var ab := a + b;
    forall i | 0 <= i < |ab| - 1 ensures !(ab[i] == Quote && ab[i + 1] == Quote) {
      if i + 1 < |a| {
        assert ab[i] == a[i] && ab[i + 1] == a[i + 1];
      } else if i >= |a| {
        assert ab[i] == b[i - |a|] && ab[i + 1] == b[i - |a| + 1];
      }
    }
  }

  /** A value that ends in a quote, once escaped and quoted, closes a pair with the closing
      quote: the literal loses that quote and the value runs on into NULL, so the statement
      around it no longer parses as intended. */
  lemma TrailingQuoteCorruptsLiteral()
    ensures NullifyEmpty("'" + "O\\'" + "'") == "'O\\NULL"
    ensures NullifyEmpty("'" + "O\\'" + "'") != SqlLiteral("O\\'")
  {
    var value := "'O\\";
    assert "'" + "O\\'" + "'" == value + QuotePair;
    assert !HasQuotePair(value) by {
      assert Quote !in value[1..];
    }
    ReplaceWithoutPair(value);
    ReplaceConcat(value, QuotePair);
    assert NullifyEmpty(QuotePair) == "NULL";
  }
}
