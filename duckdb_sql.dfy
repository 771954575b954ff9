/** The SQL text the DuckDB I/O manager builds for a table slice: the WHERE clause that
    selects a slice's partitions, the statement that deletes the slice before it is
    rewritten, and the statement that reads it back. Formatted datetimes are opaque strings
    here, already rendered in the database's datetime format. */
module DuckDbSql {
  import opened Wrappers
  import opened Text

  /** The partitions of one dimension: a time window, or a list of static partition keys. */
  datatype Partitions =
    | TimeWindow(start: string, end: string)
    | Static(keys: seq<string>)

  /** `TablePartitionDimension`: the SQL expression the dimension is stored under and the
      partitions selected. */
  datatype PartitionDimension = PartitionDimension(partitionExpr: string, partitions: Partitions)

  /** `TableSlice`: columns and partition dimensions are both optional. */
  datatype TableSlice = TableSlice(
    schema: string,
    table: string,
    columns: Option<seq<string>>,
    partitionDimensions: Option<seq<PartitionDimension>>)

  /** Python's truthiness of an optional sequence: present and non-empty. */
  predicate Present<T>(o: Option<seq<T>>) {
    o.Some? && o.value != []
  }

  // ---------------------------------------------------------------- quoting

  const QUOTE: char := '\''

  predicate QuoteFree(s: string) {
    forall i | 0 <= i < |s| :: s[i] != QUOTE
  }

  function Quote(s: string): string {
    [QUOTE] + s + [QUOTE]
  }

  function QuoteAll(keys: seq<string>): (r: seq<string>)
    ensures |r| == |keys| && forall i | 0 <= i < |keys| :: r[i] == Quote(keys[i])
  {
    if keys == [] then [] else [Quote(keys[0])] + QuoteAll(keys[1..])
  }

  /** The text up to the first quote, and the rest from that quote on. */
  function TakeUntilQuote(s: string): (r: (string, string))
    ensures r.0 + r.1 == s && QuoteFree(r.0)
    ensures r.1 == [] || r.1[0] == QUOTE
  {
    if s == [] then ([], [])
    else if s[0] == QUOTE then ([], s)
    else
      var r := TakeUntilQuote(s[1..]);
      ConsQuoteFree(s, r.0, r.1);
      ([s[0]] + r.0, r.1)
  }

  lemma ConsQuoteFree(s: string, p: string, t: string)
    requires s != [] && s[0] != QUOTE && QuoteFree(p) && p + t == s[1..]
    ensures QuoteFree([s[0]] + p) && [s[0]] + p + t == s
  {
    assert [s[0]] + p + t == [s[0]] + (p + t);
    forall i | 0 <= i < |[s[0]] + p| ensures ([s[0]] + p)[i] != QUOTE {
      if i > 0 {
        assert ([s[0]] + p)[i] == p[i - 1];
      }
    }
  }

  lemma {:induction false} TakeUntilQuoteSplits(p: string, t: string)
    requires QuoteFree(p) && t != [] && t[0] == QUOTE
    ensures TakeUntilQuote(p + t) == (p, t)
  {
    if p != [] {
      assert (p + t)[0] == p[0] != QUOTE;
      assert (p + t)[1..] == p[1..] + t;
      TakeUntilQuoteSplits(p[1..], t);
      assert [p[0]] + p[1..] == p;
    } else {
      assert p + t == t;
    }
  }

  // ---------------------------------------------------------------- clauses

  /** `_static_where_clause`: the expression is in the list of single-quoted keys. */
  function StaticWhereClause(expr: string, keys: seq<string>): string {
    expr + " in (" + Join(", ", QuoteAll(keys)) + ")"
  }

  /** `_time_window_where_clause`: the half-open window from start (included) to end
      (excluded). */
  function TimeWindowWhereClause(expr: string, start: string, end: string): string {
    expr + " >= '" + start + "' AND " + expr + " < '" + end + "'"
  }

  /** The clause for one dimension: the time clause for a time window, else the static one. */
  function DimensionClause(d: PartitionDimension): string {
    match d.partitions
    case TimeWindow(s, e) => TimeWindowWhereClause(d.partitionExpr, s, e)
    case Static(keys) => StaticWhereClause(d.partitionExpr, keys)
  }

  function DimensionClauses(dims: seq<PartitionDimension>): (r: seq<string>)
    ensures |r| == |dims| && forall i | 0 <= i < |dims| :: r[i] == DimensionClause(dims[i])
  {
    if dims == [] then [] else [DimensionClause(dims[0])] + DimensionClauses(dims[1..])
  }

  /** `_partition_where_clause`: one clause per dimension, joined by " AND\n". */
  function PartitionWhereClause(dims: seq<PartitionDimension>): string {
    Join(" AND\n", DimensionClauses(dims))
  }

  // ---------------------------------------------------------------- statements

  function Target(ts: TableSlice): string {
    ts.schema + "." + ts.table
  }

  /** The column list: the columns joined by ", ", or `*` when there are none. */
  function ColumnList(columns: Option<seq<string>>): string {
    if Present(columns) then Join(", ", columns.value) else "*"
  }

  /** `_get_cleanup_statement`. */
  function CleanupStatement(ts: TableSlice): string {
    if Present(ts.partitionDimensions) then
      "DELETE FROM " + Target(ts) + " WHERE\n" + PartitionWhereClause(ts.partitionDimensions.value)
    else
      "DELETE FROM " + Target(ts)
  }

  /** `DuckDbClient.get_select_statement`. */
  function SelectStatement(ts: TableSlice): string {
    if Present(ts.partitionDimensions) then
      "SELECT " + ColumnList(ts.columns) + " FROM " + Target(ts) + " WHERE\n" + PartitionWhereClause(ts.partitionDimensions.value)
    else
      "SELECT " + ColumnList(ts.columns) + " FROM " + Target(ts)
  }

  // ---------------------------------------------------------------- decoding

  /** Reads back a comma-separated list of quoted keys, each starting at a quote. */
  function DecodeQuotedKeys(s: string): Option<seq<string>>
    decreases |s|
  {
    if s == [] || s[0] != QUOTE then None
    else
      var split := TakeUntilQuote(s[1..]);
      var key := split.0;
      var rest := split.1;
      if rest == [] then None
      else if rest == [QUOTE] then Some([key])
      else if |rest| >= 3 && rest[1..3] == ", " then
        match DecodeQuotedKeys(rest[3..])
        case None => None
        case Some(more) => Some([key] + more)
      else None
  }

  /** Reads the keys back out of the text between the parentheses of a static clause. */
  function DecodeKeyList(s: string): Option<seq<string>> {
    if s == [] then Some([]) else DecodeQuotedKeys(s)
  }

  /** Reads the keys back out of a static clause over `expr`. */
  function DecodeStaticClause(expr: string, clause: string): Option<seq<string>> {
    var lead := expr + " in (";
    if |clause| >= |lead| + 1 && clause[..|lead|] == lead && clause[|clause| - 1] == ')' then
      DecodeKeyList(clause[|lead|..|clause| - 1])
    else None
  }

  /** Reads the window back out of a time clause over `expr`. */
  function DecodeTimeWindowClause(expr: string, clause: string): Option<(string, string)> {
    var lead := expr + " >= '";
    if |clause| >= |lead| && clause[..|lead|] == lead then
      var split := TakeUntilQuote(clause[|lead|..]);
      var start := split.0;
      var rest := split.1;
      var mid := "' AND " + expr + " < '";
      if |rest| >= |mid| + 1 && rest[..|mid|] == mid && rest[|rest| - 1] == QUOTE then
        Some((start, rest[|mid|..|rest| - 1]))
      else None
    else None
  }

  // ---------------------------------------------------------------- lemmas

  /** A quoted key followed by the separator decodes to that key before whatever the rest
      decodes to. */
  lemma DecodeCons(k: string, more: string)
    requires QuoteFree(k)
    ensures DecodeQuotedKeys(Quote(k) + ", " + more) ==
      match DecodeQuotedKeys(more)
      case None => None
      case Some(ks) => Some([k] + ks)
  {
    var s := Quote(k) + ", " + more;
    var tail := [QUOTE] + ", " + more;
    assert s == [QUOTE] + (k + tail);
    assert s[1..] == k + tail;
    TakeUntilQuoteSplits(k, tail);
    assert tail[1..3] == ", ";
    assert tail[3..] == more;
  }

  /** A last quoted key decodes to itself. */
  lemma DecodeLast(k: string)
    requires QuoteFree(k)
    ensures DecodeQuotedKeys(Quote(k)) == Some([k])
  {
    var s := Quote(k);
    assert s[1..] == k + [QUOTE];
    TakeUntilQuoteSplits(k, [QUOTE]);
  }

  lemma {:induction false} DecodeQuotedKeysOfJoin(keys: seq<string>)
    requires keys != [] && forall i | 0 <= i < |keys| :: QuoteFree(keys[i])
    ensures DecodeQuotedKeys(Join(", ", QuoteAll(keys))) == Some(keys)
    decreases |keys|
  {
    var k := keys[0];
    if |keys| == 1 {
      DecodeLast(k);
      assert keys == [k];
    } else {
      var rest := keys[1..];
      assert QuoteAll(keys)[1..] == QuoteAll(rest);
      assert Join(", ", QuoteAll(keys)) == Quote(k) + ", " + Join(", ", QuoteAll(rest));
      assert forall i | 0 <= i < |rest| :: QuoteFree(rest[i]) by {
        forall i | 0 <= i < |rest| ensures QuoteFree(rest[i]) {
          assert rest[i] == keys[i + 1];
        }
      }
      DecodeQuotedKeysOfJoin(rest);
      DecodeCons(k, Join(", ", QuoteAll(rest)));
      assert [k] + rest == keys;
    }
  }

  /** Static clause round trip: the keys are read back, in order, from the clause, provided
      none of them contains a quote (keys are spliced into the SQL text without escaping). */
  lemma StaticClauseRoundTrip(expr: string, keys: seq<string>)
    requires forall i | 0 <= i < |keys| :: QuoteFree(keys[i])
    ensures DecodeStaticClause(expr, StaticWhereClause(expr, keys)) == Some(keys)
  {
    var lead := expr + " in (";
    var body := Join(", ", QuoteAll(keys));
    var c := StaticWhereClause(expr, keys);
    assert c == lead + body + ")";
    assert c[..|lead|] == lead;
    assert c[|lead|..|c| - 1] == body;
    if keys != [] {
      DecodeQuotedKeysOfJoin(keys);
      assert body != [] by { assert DecodeQuotedKeys(body).Some?; }
    }
  }

  /** Time clause round trip: start and end are read back from the clause, provided the
      start contains no quote. */
  lemma TimeWindowClauseRoundTrip(expr: string, start: string, end: string)
    requires QuoteFree(start)
    ensures DecodeTimeWindowClause(expr, TimeWindowWhereClause(expr, start, end)) == Some((start, end))
  {
    var lead := expr + " >= '";
    var mid := "' AND " + expr + " < '";
    var rest := mid + end + "'";
    var c := TimeWindowWhereClause(expr, start, end);
    assert c == lead + (start + rest);
    assert c[..|lead|] == lead;
    assert c[|lead|..] == start + rest;
    TakeUntilQuoteSplits(start, rest);
    assert rest[..|mid|] == mid;
    assert rest[|mid|..|rest| - 1] == end;
  }

  /** Adding a dimension appends its clause after " AND\n"; a single dimension's clause
      stands alone, and no dimensions give the empty text. */
  lemma PartitionWhereClauseSnoc(dims: seq<PartitionDimension>, d: PartitionDimension)
    ensures PartitionWhereClause([]) == ""
    ensures PartitionWhereClause([d]) == DimensionClause(d)
    ensures dims != [] ==>
      PartitionWhereClause(dims + [d]) == PartitionWhereClause(dims) + " AND\n" + DimensionClause(d)
  {
    assert DimensionClauses([d]) == [DimensionClause(d)];
    if dims != [] {
      assert DimensionClauses(dims + [d]) == DimensionClauses(dims) + [DimensionClause(d)];
      JoinSnoc(" AND\n", DimensionClauses(dims), DimensionClause(d));
    }
  }

  /** A time-window dimension gets the time clause and any other the static clause, each
      over the dimension's own expression. */
  lemma DimensionClauseKinds(d: PartitionDimension)
    ensures d.partitions.TimeWindow? && QuoteFree(d.partitions.start) ==>
      DecodeTimeWindowClause(d.partitionExpr, DimensionClause(d)) == Some((d.partitions.start, d.partitions.end))
    ensures d.partitions.Static? && (forall i | 0 <= i < |d.partitions.keys| :: QuoteFree(d.partitions.keys[i])) ==>
      DecodeStaticClause(d.partitionExpr, DimensionClause(d)) == Some(d.partitions.keys)
  {
    match d.partitions
    case TimeWindow(s, e) =>
      if QuoteFree(s) { TimeWindowClauseRoundTrip(d.partitionExpr, s, e); }
    case Static(keys) =>
      if forall i | 0 <= i < |keys| :: QuoteFree(keys[i]) { StaticClauseRoundTrip(d.partitionExpr, keys); }
  }

  lemma WhereSplits(base: string, w: string)
    ensures StartsWith(base + " WHERE\n" + w, base)
    ensures StartsWith(base + " WHERE\n" + w, base + " WHERE\n")
    ensures (base + " WHERE\n" + w)[|base + " WHERE\n"|..] == w
  {
    var c := base + " WHERE\n" + w;
    assert c[..|base + " WHERE\n"|] == base + " WHERE\n";
    assert c[..|base|] == base;
  }

  lemma NoWhere(base: string)
    ensures StartsWith(base, base) && !StartsWith(base, base + " WHERE\n")
  {
  }

  /** The cleanup statement deletes from the slice's table, and carries a WHERE clause
      exactly when the slice has partition dimensions; the clause is then the partition
      clause. */
  lemma CleanupStatementShape(ts: TableSlice)
    ensures var base := "DELETE FROM " + Target(ts);
      && StartsWith(CleanupStatement(ts), base)
      && (StartsWith(CleanupStatement(ts), base + " WHERE\n") <==> Present(ts.partitionDimensions))
      && (Present(ts.partitionDimensions) ==>
            CleanupStatement(ts)[|base + " WHERE\n"|..] == PartitionWhereClause(ts.partitionDimensions.value))
      && (!Present(ts.partitionDimensions) ==> CleanupStatement(ts) == base)
  {
    var base := "DELETE FROM " + Target(ts);
    if Present(ts.partitionDimensions) {
      WhereSplits(base, PartitionWhereClause(ts.partitionDimensions.value));
    } else {
      NoWhere(base);
    }
  }

  /** The select statement reads the chosen columns (all when none are given) from the
      slice's table, and carries a WHERE clause exactly when the slice has partition
      dimensions. */
  lemma SelectStatementShape(ts: TableSlice)
    ensures var base := "SELECT " + ColumnList(ts.columns) + " FROM " + Target(ts);
      && StartsWith(SelectStatement(ts), base)
      && (StartsWith(SelectStatement(ts), base + " WHERE\n") <==> Present(ts.partitionDimensions))
      && (Present(ts.partitionDimensions) ==>
            SelectStatement(ts)[|base + " WHERE\n"|..] == PartitionWhereClause(ts.partitionDimensions.value))
      && (!Present(ts.partitionDimensions) ==> SelectStatement(ts) == base)
    ensures !Present(ts.columns) ==> ColumnList(ts.columns) == "*"
    ensures ts.columns.Some? && |ts.columns.value| == 1 ==> ColumnList(ts.columns) == ts.columns.value[0]
  {
    var base := "SELECT " + ColumnList(ts.columns) + " FROM " + Target(ts);
    if Present(ts.partitionDimensions) {
      WhereSplits(base, PartitionWhereClause(ts.partitionDimensions.value));
    } else {
      NoWhere(base);
    }
  }

  lemma DropLead(lead: string, rest: string, w: string)
    ensures (lead + rest + w)[|lead|..] == rest + w
  {
    assert lead + rest + w == lead + (rest + w);
  }

  /** Deleting and reading a slice address the same rows: after their verb and column list
      the two statements are the same text. */
  lemma CleanupAndSelectShareSlice(ts: TableSlice)
    ensures CleanupStatement(ts)[|"DELETE"|..] == SelectStatement(ts)[|"SELECT " + ColumnList(ts.columns)|..]
  {
    var t := " FROM " + Target(ts);
    var w := if Present(ts.partitionDimensions) then " WHERE\n" + PartitionWhereClause(ts.partitionDimensions.value) else "";
    var sel := "SELECT " + ColumnList(ts.columns);
    assert "DELETE FROM " == "DELETE" + " FROM ";
    assert CleanupStatement(ts) == "DELETE" + t + w;
    assert SelectStatement(ts) == sel + t + w;
    DropLead("DELETE", t, w);
    DropLead(sel, t, w);
  }
}
