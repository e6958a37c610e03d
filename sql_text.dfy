/**
 * The text of the parameterised insert statement that the copy engine prepares
 * for every row: the column names joined by commas, one `?` marker per column,
 * formatted as `insert into <table> (<columns>) values (<markers>)`.
 */
module SqlText {

  /** The elements of `parts` separated by single commas; the empty list gives "". */
  function Join(parts: seq<string>): string
  {
    if |parts| == 0 then ""
    else if |parts| == 1 then parts[0]
    else parts[0] + "," + Join(parts[1..])
  }

  /** The pieces of `s` between its commas, in order (never an empty list). */
  function Split(s: string): (parts: seq<string>)
    ensures |parts| >= 1
  {
    if |s| == 0 then [""]
    else
      var rest := Split(s[1..]);
      if s[0] == ',' then [""] + rest else [[s[0]] + rest[0]] + rest[1..]
  }

  /** Number of occurrences of `c` in `s`. */
  function Count(c: char, s: string): nat
  {
    if |s| == 0 then 0 else (if s[0] == c then 1 else 0) + Count(c, s[1..])
  }

  /** No element of `parts` contains the character `c`. */
  predicate NoneContains(parts: seq<string>, c: char)
  {
    forall i :: 0 <= i < |parts| ==> c !in parts[i]
  }

  /** Every column name mapped to a `?` marker, in column order. */
  function Markers(names: seq<string>): seq<string>
  {
    seq(|names|, i requires 0 <= i < |names| => "?")
  }

  /** The comma-separated column list of the statement. */
  function ColumnList(names: seq<string>): string
  {
    Join(names)
  }

  /** The comma-separated marker list of the statement. */
  function MarkerList(names: seq<string>): string
  {
    Join(Markers(names))
  }

  /** The insert statement prepared for every row (names and table are used verbatim). */
  function InsertStatement(table: string, names: seq<string>): string
  {
    "insert into " + table + " (" + ColumnList(names) + ") values (" + MarkerList(names) + ")"
  }

  lemma {:induction false} SplitNoComma(p: string)
    requires ',' !in p
    ensures Split(p) == [p]
  {
    if |p| > 0 {
      assert ',' !in p[1..] by {
        forall k | 0 <= k < |p[1..]| ensures p[1..][k] != ',' { assert p[1..][k] == p[k + 1]; }
      }
      SplitNoComma(p[1..]);
      assert [p[0]] + p[1..] == p;
    }
  }

  lemma {:induction false} SplitAfterPiece(p: string, t: string)
    requires ',' !in p
    ensures Split(p + "," + t) == [p] + Split(t)
  {
    if |p| == 0 {
      assert p + "," + t == [','] + t;
      assert (p + "," + t)[1..] == t;
    } else {
      assert ',' !in p[1..] by {
        forall k | 0 <= k < |p[1..]| ensures p[1..][k] != ',' { assert p[1..][k] == p[k + 1]; }
      }
      assert (p + "," + t)[1..] == p[1..] + "," + t;
      assert (p + "," + t)[0] == p[0];
      SplitAfterPiece(p[1..], t);
      assert [p[0]] + p[1..] == p;
    }
  }

  /**
   * Joining comma-free names and splitting the result at its commas gives the
   * names back, in order and spelling: the column list is exactly the names.
   */
  lemma {:induction false} SplitJoin(parts: seq<string>)
    requires |parts| >= 1 && NoneContains(parts, ',')
    ensures Split(Join(parts)) == parts
  {
    if |parts| == 1 {
      SplitNoComma(parts[0]);
    } else {
      assert NoneContains(parts[1..], ',') by {
        forall k | 0 <= k < |parts[1..]| ensures ',' !in parts[1..][k] { assert parts[1..][k] == parts[k + 1]; }
      }
      SplitJoin(parts[1..]);
      SplitAfterPiece(parts[0], Join(parts[1..]));
      assert [parts[0]] + parts[1..] == parts;
    }
  }

  lemma {:induction false} CountAppend(c: char, a: string, b: string)
    ensures Count(c, a + b) == Count(c, a) + Count(c, b)
  {
    if |a| == 0 {
      assert a + b == b;
    } else {
      assert (a + b)[0] == a[0];
      assert (a + b)[1..] == a[1..] + b;
      CountAppend(c, a[1..], b);
    }
  }

  lemma {:induction false} CountAbsent(c: char, s: string)
    requires c !in s
    ensures Count(c, s) == 0
  {
    if |s| > 0 {
      assert c !in s[1..] by {
        forall k | 0 <= k < |s[1..]| ensures s[1..][k] != c { assert s[1..][k] == s[k + 1]; }
      }
      CountAbsent(c, s[1..]);
    }
  }

  /** A joined list holds `c` only where its parts do, for any `c` other than the comma. */
  lemma {:induction false} CountJoinAbsent(c: char, parts: seq<string>)
    requires c != ',' && NoneContains(parts, c)
    ensures Count(c, Join(parts)) == 0
  {
    if |parts| == 1 {
      CountAbsent(c, parts[0]);
    } else if |parts| > 1 {
      assert NoneContains(parts[1..], c) by {
        forall k | 0 <= k < |parts[1..]| ensures c !in parts[1..][k] { assert parts[1..][k] == parts[k + 1]; }
      }
      CountJoinAbsent(c, parts[1..]);
      CountAbsent(c, parts[0]);
      CountAppend(c, parts[0], ",");
      CountAppend(c, parts[0] + ",", Join(parts[1..]));
      assert Count(c, ",") == 0;
    }
  }

  /** The marker list holds exactly one `?` per column name. */
  lemma {:induction false} MarkerCount(names: seq<string>)
    ensures Count('?', MarkerList(names)) == |names|
    decreases |names|
  {
    if |names| == 1 {
      assert Markers(names) == ["?"];
    } else if |names| > 1 {
      assert Markers(names)[1..] == Markers(names[1..]);
      MarkerCount(names[1..]);
      CountAppend('?', "?", ",");
      CountAppend('?', "?,", Join(Markers(names[1..])));
    }
  }

  /** The marker list is `?` repeated once per column, separated by commas. */
  lemma MarkerPieces(names: seq<string>)
    requires |names| >= 1
    ensures Split(MarkerList(names)) == Markers(names)
    ensures |MarkerList(names)| == 2 * |names| - 1
  {
    SplitJoin(Markers(names));
    MarkerLength(names);
  }

  lemma {:induction false} MarkerLength(names: seq<string>)
    requires |names| >= 1
    ensures |MarkerList(names)| == 2 * |names| - 1
    decreases |names|
  {
    if |names| > 1 {
      assert Markers(names)[1..] == Markers(names[1..]);
      MarkerLength(names[1..]);
    }
  }

  /**
   * When neither the table nor any column name contains `?`, the statement
   * carries exactly one parameter marker per column, so parameters
   * 1..|names| are exactly the positions the row binding fills.
   */
  lemma ParameterCount(table: string, names: seq<string>)
    requires '?' !in table && NoneContains(names, '?')
    ensures Count('?', InsertStatement(table, names)) == |names|
  {
    var head := "insert into " + table + " (";
    var cols := ColumnList(names);
    var middle := ") values (";
    var marks := MarkerList(names);
    CountJoinAbsent('?', names);
    MarkerCount(names);
    HeadTextCount(table);
    ClosingTextCount();
    CountAppend('?', head, cols);
    CountAppend('?', head + cols, middle);
    CountAppend('?', head + cols + middle, marks);
    CountAppend('?', head + cols + middle + marks, ")");
  }

  /** The fixed text before the column list holds no `?` when the table name holds none. */
  lemma HeadTextCount(table: string)
    requires '?' !in table
    ensures Count('?', "insert into " + table + " (") == 0
  {
    CountAbsent('?', "insert into " + table + " (");
  }

  /** The fixed text after the column list holds no `?`. */
  lemma ClosingTextCount()
    ensures Count('?', ") values (") == 0
    ensures Count('?', ")") == 0
  {
    CountAbsent('?', ") values (");
    CountAbsent('?', ")");
  }

  /** The statement for a concrete two-column table. */
  lemma TwoColumnStatement()
    ensures InsertStatement("T", ["id", "name"]) == "insert into T (id,name) values (?,?)"
  {
  }
}
