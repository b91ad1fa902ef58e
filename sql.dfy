/** The statements the `SQL` connector builds before handing them to the
    database driver (simpler/connectors.py): the text and parameters of
    `select`, `update`, `delete` and `insert_all`, the cutting of a long
    insertion into chunks, and the shortened text `print_query` shows.
    Running a statement is not modelled: each operation returns what it
    would pass to `execute` or `executemany`. */
module Sql {
  import opened Wrappers
  import opened Strings
  import opened Builtins

  /** A Python dict from column names to values, in insertion order. */
  type Columns<V> = seq<(string, V)>

  /** A query text with `%s` placeholders and the values bound to them. */
  datatype Query<V> = Query(text: string, params: seq<V>)

  /** The keys of a dict, in order. */
  function Names<V>(d: Columns<V>): (r: seq<string>)
    ensures |r| == |d| && forall i :: 0 <= i < |d| ==> r[i] == d[i].0
  {
    if d == [] then [] else [d[0].0] + Names(d[1..])
  }

  /** The values of a dict, in the order of its keys. */
  function Values<V>(d: Columns<V>): (r: seq<V>)
    ensures |r| == |d| && forall i :: 0 <= i < |d| ==> r[i] == d[i].1
  {
    if d == [] then [] else [d[0].1] + Values(d[1..])
  }

  /** `[c + suffix for c in names]`. */
  function Terms(names: seq<string>, suffix: string): (r: seq<string>)
    ensures |r| == |names| && forall i :: 0 <= i < |names| ==> r[i] == names[i] + suffix
  {
    if names == [] then [] else [names[0] + suffix] + Terms(names[1..], suffix)
  }

  /** A name that cannot be mistaken for part of a placeholder. */
  predicate Plain(s: string)
  {
    '%' !in s
  }

  /** A character in none of the pieces and not in the separator is not
      in their join. */
  lemma {:induction false} NotInJoin(pieces: seq<string>, sep: string, c: char)
    requires c !in sep && forall i :: 0 <= i < |pieces| ==> c !in pieces[i]
    ensures c !in Join(pieces, sep)
  {
    if |pieces| > 1 {
      NotInJoin(pieces[1..], sep, c);
    }
  }

  /** Each term `c + suffix` of plain names holds one placeholder when the
      suffix holds one, and the separator adds none. */
  lemma TermsPlaceholders(names: seq<string>, suffix: string, sep: string)
    requires forall i :: 0 <= i < |names| ==> Plain(names[i])
    requires Count(suffix, '%') == 1 && Plain(sep)
    ensures Count(Join(Terms(names, suffix), sep), '%') == |names|
  {
    var terms := Terms(names, suffix);
    forall i | 0 <= i < |terms|
      ensures Count(terms[i], '%') == 1
    {
      CountConcat(names[i], suffix, '%');
      CountNone(names[i], '%');
    }
    CountJoin(terms, sep, '%', 1);
  }

  // ---------------------------------------------------------------------
  // select

  /** The query `select(table, filters, or_filters=...)` executes: every
      filter becomes a `column=%s` term, the terms joined by ` AND ` (or
      ` OR `) after ` WHERE `, and the filter values are the parameters. */
  function Select<V>(table: string, filters: Columns<V>, orFilters: bool): (q: Query<V>)
    ensures StartsWith(q.text, "SELECT * FROM " + table + " ")
    ensures filters == [] ==> q.text == "SELECT * FROM " + table + " "
    ensures |q.params| == |filters| && forall i :: 0 <= i < |filters| ==> q.params[i] == filters[i].1
  {
    var sep := if orFilters then " OR " else " AND ";
    var prefix := "SELECT * FROM " + table + " ";
    var text := if filters == [] then prefix else prefix + " WHERE " + Join(Terms(Names(filters), "=%s"), sep);
    assert text[..|prefix|] == prefix;
    Query(text, Values(filters))
  }

  /** With plain table and column names, the query has exactly one
      placeholder per parameter. */
  lemma SelectPlaceholders<V>(table: string, filters: Columns<V>, orFilters: bool)
    requires Plain(table) && forall i :: 0 <= i < |filters| ==> Plain(filters[i].0)
    ensures Count(Select(table, filters, orFilters).text, '%') == |Select(table, filters, orFilters).params|
  {
    var sep := if orFilters then " OR " else " AND ";
    var prefix := "SELECT * FROM " + table + " ";
    CountNone(prefix, '%');
    if filters != [] {
      var where := Join(Terms(Names(filters), "=%s"), sep);
      assert Count("=%s", '%') == 1;
      TermsPlaceholders(Names(filters), "=%s", sep);
      CountNone(" WHERE ", '%');
      CountConcat(prefix, " WHERE ", '%');
      CountConcat(prefix + " WHERE ", where, '%');
    }
  }

  // ---------------------------------------------------------------------
  // update and delete

  /** A `keyword` clause of `column=%s ` terms joined by `sep`, present
      only for a non-empty dict. */
  function Clause<V>(keyword: string, d: Columns<V>, sep: string): string
  {
    if d == [] then [] else keyword + Join(Terms(Names(d), "=%s "), sep)
  }

  /** The query `update(table, updates, filters)` executes. */
  function UpdateQuery<V>(table: string, updates: Columns<V>, filters: Columns<V>): Query<V>
  {
    Query("UPDATE " + table + " " + Clause("SET ", updates, ",") + Clause("WHERE ", filters, " AND "),
      Values(updates) + Values(filters))
  }

  /** The query `delete(table, filters)` executes. */
  function DeleteQuery<V>(table: string, filters: Columns<V>): Query<V>
  {
    Query("DELETE FROM " + table + " " + Clause("WHERE ", filters, " AND "), Values(filters))
  }

  /** The loop over `d.items()` shared by `update` and `delete`: one term
      per key, and its value appended to the parameters. */
  method AppendTerms<V>(d: Columns<V>, params0: seq<V>) returns (values: seq<string>, params: seq<V>)
    ensures values == Terms(Names(d), "=%s ")
    ensures params == params0 + Values(d)
  {
    values, params := [], params0;
    var i := 0;
    while i < |d|
      invariant 0 <= i <= |d|
      invariant |values| == i && forall j :: 0 <= j < i ==> values[j] == d[j].0 + "=%s "
      invariant |params| == |params0| + i && params[..|params0|] == params0
      invariant forall j :: 0 <= j < i ==> params[|params0| + j] == d[j].1
    {
      values := values + [d[i].0 + "=%s "];
      params := params + [d[i].1];
      i := i + 1;
    }
  }

  /** `SQL.update` up to the call of `execute`. */
  method Update<V>(table: string, updates: Columns<V>, filters: Columns<V>) returns (q: Query<V>)
    ensures q == UpdateQuery(table, updates, filters)
  {
    var query := "UPDATE " + table + " ";
    var params: seq<V> := [];
    if |updates| > 0 {
      var values;
      values, params := AppendTerms(updates, params);
      query := query + ("SET " + Join(values, ","));
    }
    assert query == "UPDATE " + table + " " + Clause("SET ", updates, ",");
    assert params == Values(updates);
    if |filters| > 0 {
      var values;
      values, params := AppendTerms(filters, params);
      query := query + ("WHERE " + Join(values, " AND "));
    }
    assert query == "UPDATE " + table + " " + Clause("SET ", updates, ",") + Clause("WHERE ", filters, " AND ");
    q := Query(query, params);
  }

  /** `SQL.delete` up to the call of `execute`. */
  method Delete<V>(table: string, filters: Columns<V>) returns (q: Query<V>)
    ensures q == DeleteQuery(table, filters)
  {
    var query := "DELETE FROM " + table + " ";
    var params: seq<V> := [];
    if |filters| > 0 {
      var values;
      values, params := AppendTerms(filters, params);
      query := query + ("WHERE " + Join(values, " AND "));
    }
    assert query == "DELETE FROM " + table + " " + Clause("WHERE ", filters, " AND ");
    q := Query(query, params);
  }

  lemma ClausePlaceholders<V>(keyword: string, d: Columns<V>, sep: string)
    requires Plain(keyword) && Plain(sep) && forall i :: 0 <= i < |d| ==> Plain(d[i].0)
    ensures Count(Clause(keyword, d, sep), '%') == |d|
  {
    if d != [] {
      assert Count("=%s ", '%') == 1;
      TermsPlaceholders(Names(d), "=%s ", sep);
      CountNone(keyword, '%');
      CountConcat(keyword, Join(Terms(Names(d), "=%s "), sep), '%');
    }
  }

  /** The parameters of `update` are the new values, then the filter
      values, each in dict order; with plain names the text holds one
      placeholder for each of them. */
  lemma UpdateParams<V>(table: string, updates: Columns<V>, filters: Columns<V>)
    requires Plain(table)
    requires forall i :: 0 <= i < |updates| ==> Plain(updates[i].0)
    requires forall i :: 0 <= i < |filters| ==> Plain(filters[i].0)
    ensures var q := UpdateQuery(table, updates, filters);
      |q.params| == |updates| + |filters|
      && (forall i :: 0 <= i < |updates| ==> q.params[i] == updates[i].1)
      && (forall i :: 0 <= i < |filters| ==> q.params[|updates| + i] == filters[i].1)
      && Count(q.text, '%') == |q.params|
  {
    var head := "UPDATE " + table + " ";
    var setPart := Clause("SET ", updates, ",");
    var where := Clause("WHERE ", filters, " AND ");
    CountNone(head, '%');
    ClausePlaceholders("SET ", updates, ",");
    ClausePlaceholders("WHERE ", filters, " AND ");
    CountConcat(head, setPart, '%');
    CountConcat(head + setPart, where, '%');
  }

  /** A SET part appears exactly when there is something to update, and a
      WHERE part exactly when there is a filter. */
  lemma ClausePresent<V>(keyword: string, d: Columns<V>, sep: string)
    requires keyword != []
    ensures Clause(keyword, d, sep) == [] <==> d == []
    ensures d != [] ==> StartsWith(Clause(keyword, d, sep), keyword)
  {
    if d != [] {
      var c := Clause(keyword, d, sep);
      assert c[..|keyword|] == keyword;
    }
  }

  /** The parameters of `delete` are the filter values in dict order, one
      placeholder each. */
  lemma DeleteParams<V>(table: string, filters: Columns<V>)
    requires Plain(table) && forall i :: 0 <= i < |filters| ==> Plain(filters[i].0)
    ensures var q := DeleteQuery(table, filters);
      |q.params| == |filters| && (forall i :: 0 <= i < |filters| ==> q.params[i] == filters[i].1)
      && Count(q.text, '%') == |q.params|
  {
    var head := "DELETE FROM " + table + " ";
    CountNone(head, '%');
    ClausePlaceholders("WHERE ", filters, " AND ");
    CountConcat(head, Clause("WHERE ", filters, " AND "), '%');
  }

  // ---------------------------------------------------------------------
  // insert_all: chunking

  /** The chunks `insert_all` sends: while more than `max_insertions` rows
      are left, the first `max_insertions` of them; then the rest.  An
      empty list sends nothing. */
  function Chunked<T>(rows: seq<T>, maxInsertions: Option<nat>): seq<seq<T>>
    requires maxInsertions.Some? ==> maxInsertions.value >= 1
    decreases |rows|
  {
    if rows == [] then []
    else if maxInsertions.None? || |rows| <= maxInsertions.value then [rows]
    else [rows[..maxInsertions.value]] + Chunked(rows[maxInsertions.value..], maxInsertions)
  }

  /** The chunks put back together are the rows; every chunk but the last
      holds exactly `max_insertions` rows, and the last holds from one up to
      `max_insertions`. */
  lemma {:induction false} ChunkedRows<T>(rows: seq<T>, maxInsertions: Option<nat>)
    requires maxInsertions.Some? ==> maxInsertions.value >= 1
    ensures var parts := Chunked(rows, maxInsertions);
      Flatten(parts) == rows
      && (rows == [] <==> parts == [])
      && (maxInsertions.None? && rows != [] ==> parts == [rows])
      && (forall i :: 0 <= i < |parts| ==> parts[i] != [])
      && (maxInsertions.Some? ==> forall i :: 0 <= i < |parts| ==> |parts[i]| <= maxInsertions.value)
      && (maxInsertions.Some? ==> forall i :: 0 <= i < |parts| - 1 ==> |parts[i]| == maxInsertions.value)
    decreases |rows|
  {
    var parts := Chunked(rows, maxInsertions);
    if rows == [] {
    } else if maxInsertions.None? || |rows| <= maxInsertions.value {
      assert parts == [rows];
      assert Flatten(parts) == rows + Flatten([]);
    } else {
      var m := maxInsertions.value;
      var tail := Chunked(rows[m..], maxInsertions);
      ChunkedRows(rows[m..], maxInsertions);
      assert parts == [rows[..m]] + tail;
      assert parts[1..] == tail;
      assert Flatten(parts) == rows[..m] + rows[m..];
      assert forall i :: 1 <= i < |parts| ==> parts[i] == tail[i - 1];
    }
  }

  /** The `while` loop of `insert_all` that re-slices `rows`, with the
      chunk it leaves for the statement of the call itself appended. */
  method SplitRows<T>(rows: seq<T>, maxInsertions: Option<nat>) returns (parts: seq<seq<T>>)
    requires maxInsertions.Some? ==> maxInsertions.value >= 1
    ensures parts == Chunked(rows, maxInsertions)
  {
    if rows == [] {
      return [];
    }
    parts := [];
    var left := rows;
    while maxInsertions.Some? && maxInsertions.value < |left|
      invariant left != []
      invariant parts + Chunked(left, maxInsertions) == Chunked(rows, maxInsertions)
      decreases |left|
    {
      var m := maxInsertions.value;
      assert Chunked(left, maxInsertions) == [left[..m]] + Chunked(left[m..], maxInsertions);
      parts := parts + [left[..m]];
      left := left[m..];
    }
    parts := parts + [left];
  }

  // ---------------------------------------------------------------------
  // insert_all: one statement per chunk

  /** The rows given to `insert_all`: tuples of values (`tuple_rows=True`)
      or dicts from column names to values. */
  datatype Rows<V> = Tuples(tuples: seq<seq<V>>) | Dicts(dicts: seq<Columns<V>>)

  /** One call to the driver: `execute` with a flat parameter list, or
      `executemany` (PostgreSQL) with one parameter list per row. */
  datatype Statement<V> = Execute(text: string, params: seq<V>) | ExecuteMany(text: string, batches: seq<seq<V>>)

  /** `row[key]` on a key the row lacks. */
  datatype InsertError = KeyError

  /** `','.join(['%s'] * n)`. */
  function Placeholders(n: nat): string
  {
    Join(Repeat("%s", n), ",")
  }

  /** `(%s,...,%s)` once per row, joined by commas. */
  function Groups(n: nat, rows: nat): string
  {
    Join(Repeat("(" + Placeholders(n) + ")", rows), ",")
  }

  /** The statement for one chunk of tuples; the width is that of the
      first tuple. */
  function TupleStatement<V>(table: string, part: seq<seq<V>>, postgre: bool): Statement<V>
    requires part != []
  {
    if postgre then ExecuteMany("INSERT INTO " + table + " VALUES (" + Placeholders(|part[0]|) + ") RETURNING *", part)
    else Execute("INSERT INTO " + table + " VALUES " + Groups(|part[0]|, |part|), Flatten(part))
  }

  /** `row[key]`. */
  function Lookup<V>(row: Columns<V>, key: string): (r: Option<V>)
    ensures r.None? <==> key !in Names(row)
  {
    if row == [] then None else if row[0].0 == key then Some(row[0].1) else Lookup(row[1..], key)
  }

  /** `[row[key] for key in keys]`. */
  function RowValues<V>(row: Columns<V>, keys: seq<string>): (r: Result<seq<V>, InsertError>)
    ensures r.Success? ==> |r.value| == |keys|
  {
    if keys == [] then Success([])
    else
      match Lookup(row, keys[0])
      case None => Failure(KeyError)
      case Some(v) =>
        match RowValues(row, keys[1..])
        case Failure(e) => Failure(e)
        case Success(vs) => Success([v] + vs)
  }

  /** A row gives its values exactly when it has every key, and then they
      are its values for the keys, in order. */
  lemma {:induction false} RowValuesOk<V>(row: Columns<V>, keys: seq<string>)
    ensures RowValues(row, keys).Success? <==> forall i :: 0 <= i < |keys| ==> keys[i] in Names(row)
    ensures RowValues(row, keys).Success? ==> forall i :: 0 <= i < |keys| ==> Lookup(row, keys[i]) == Some(RowValues(row, keys).value[i])
  {
    if keys != [] {
      RowValuesOk(row, keys[1..]);
      assert forall i :: 1 <= i < |keys| ==> keys[i] == keys[1..][i - 1];
    }
  }

  /** The values of every row for `keys`, one list per row. */
  function RowsValues<V>(rows: seq<Columns<V>>, keys: seq<string>): (r: Result<seq<seq<V>>, InsertError>)
    ensures r.Success? ==> |r.value| == |rows| && forall j :: 0 <= j < |rows| ==> |r.value[j]| == |keys|
  {
    if rows == [] then Success([])
    else
      match RowValues(rows[0], keys)
      case Failure(e) => Failure(e)
      case Success(vs) =>
        match RowsValues(rows[1..], keys)
        case Failure(e) => Failure(e)
        case Success(vss) => Success([vs] + vss)
  }

  /** All rows give their values exactly when each one does. */
  lemma {:induction false} RowsValuesOk<V>(rows: seq<Columns<V>>, keys: seq<string>)
    ensures RowsValues(rows, keys).Success? <==> forall j :: 0 <= j < |rows| ==> RowValues(rows[j], keys).Success?
    ensures RowsValues(rows, keys).Success? ==> forall j :: 0 <= j < |rows| ==> RowValues(rows[j], keys) == Success(RowsValues(rows, keys).value[j])
  {
    if rows != [] {
      var tail := rows[1..];
      RowsValuesOk(tail, keys);
      var head, rest := RowValues(rows[0], keys), RowsValues(tail, keys);
      if head.Failure? {
        assert RowsValues(rows, keys).Failure?;
      } else if rest.Failure? {
        assert RowsValues(rows, keys).Failure?;
        var j :| 0 <= j < |tail| && RowValues(tail[j], keys).Failure?;
        assert rows[j + 1] == tail[j];
      } else {
        var all := RowsValues(rows, keys);
        assert all == Success([head.value] + rest.value);
        forall j | 0 <= j < |rows|
          ensures RowValues(rows[j], keys) == Success(all.value[j])
        {
          if j > 0 {
            assert rows[j] == tail[j - 1];
          }
        }
      }
    }
  }

  /** The statement for one chunk of dicts; the columns are the keys of
      the first dict, and a later dict without one of them fails. */
  function DictStatement<V>(table: string, part: seq<Columns<V>>, postgre: bool): Result<Statement<V>, InsertError>
    requires part != []
  {
    var keys := Names(part[0]);
    var head := "INSERT INTO " + table + "(" + Join(keys, ",") + ") VALUES ";
    match RowsValues(part, keys)
    case Failure(e) => Failure(e)
    case Success(vss) =>
      if postgre then Success(ExecuteMany(head + "(" + Placeholders(|keys|) + ") RETURNING *", vss))
      else Success(Execute(head + Groups(|keys|, |part|), Flatten(vss)))
  }

  /** The statements of a list of results when none of them failed, and
      `KeyError` otherwise. */
  function AllOk<V>(rs: seq<Result<Statement<V>, InsertError>>): (r: Result<seq<Statement<V>>, InsertError>)
    ensures r.Success? <==> forall i :: 0 <= i < |rs| ==> rs[i].Success?
    ensures r.Success? ==> |r.value| == |rs| && forall i :: 0 <= i < |rs| ==> rs[i] == Success(r.value[i])
  {
    if rs == [] then Success([])
    else
      match rs[0]
      case Failure(e) => Failure(e)
      case Success(v) =>
        match AllOk(rs[1..])
        case Failure(e) => assert rs[1..][0] == rs[1]; Failure(e)
        case Success(vs) => Success([v] + vs)
  }

  /** What `insert_all` makes of each chunk of dicts. */
  function DictResults<V>(table: string, parts: seq<seq<Columns<V>>>, postgre: bool): (r: seq<Result<Statement<V>, InsertError>>)
    requires forall i :: 0 <= i < |parts| ==> parts[i] != []
    ensures |r| == |parts| && forall i :: 0 <= i < |parts| ==> r[i] == DictStatement(table, parts[i], postgre)
  {
    seq(|parts|, i requires 0 <= i < |parts| => DictStatement(table, parts[i], postgre))
  }

  lemma NonEmptyChunks<T>(rows: seq<T>, maxInsertions: Option<nat>)
    requires maxInsertions.Some? ==> maxInsertions.value >= 1
    ensures forall i :: 0 <= i < |Chunked(rows, maxInsertions)| ==> Chunked(rows, maxInsertions)[i] != []
  {
    ChunkedRows(rows, maxInsertions);
  }

  /** What `insert_all` sends, chunk by chunk: one statement per chunk, in
      order, or `KeyError` when the dicts of some chunk lack a key. */
  function InsertAllSpec<V>(table: string, rows: Rows<V>, postgre: bool, maxInsertions: Option<nat>): Result<seq<Statement<V>>, InsertError>
    requires maxInsertions.Some? ==> maxInsertions.value >= 1
  {
    match rows
    case Tuples(ts) =>
      var parts := Chunked(ts, maxInsertions);
      NonEmptyChunks(ts, maxInsertions);
      Success(seq(|parts|, i requires 0 <= i < |parts| => TupleStatement(table, parts[i], postgre)))
    case Dicts(ds) =>
      var parts := Chunked(ds, maxInsertions);
      NonEmptyChunks(ds, maxInsertions);
      AllOk(DictResults(table, parts, postgre))
  }

  /** The statements for chunks of tuples, one per chunk. */
  method TupleStatements<V>(table: string, parts: seq<seq<seq<V>>>, postgre: bool) returns (statements: seq<Statement<V>>)
    requires forall i :: 0 <= i < |parts| ==> parts[i] != []
    ensures statements == seq(|parts|, i requires 0 <= i < |parts| => TupleStatement(table, parts[i], postgre))
  {
    statements := [];
    var i := 0;
    while i < |parts|
      invariant 0 <= i <= |parts| && |statements| == i
      invariant forall j :: 0 <= j < i ==> statements[j] == TupleStatement(table, parts[j], postgre)
    {
      statements := statements + [TupleStatement(table, parts[i], postgre)];
      i := i + 1;
    }
  }

  /** The statements for chunks of dicts, one per chunk, stopping at the
      first chunk that raises. */
  method DictStatements<V>(table: string, parts: seq<seq<Columns<V>>>, postgre: bool) returns (r: Result<seq<Statement<V>>, InsertError>)
    requires forall i :: 0 <= i < |parts| ==> parts[i] != []
    ensures r == AllOk(DictResults(table, parts, postgre))
  {
    ghost var results := DictResults(table, parts, postgre);
    var statements: seq<Statement<V>> := [];
    var i := 0;
    while i < |parts|
      invariant 0 <= i <= |parts| && |statements| == i
      invariant forall j :: 0 <= j < i ==> results[j] == Success(statements[j])
    {
      var s := DictStatement(table, parts[i], postgre);
      if s.Failure? {
        assert results[i].Failure?;
        var failed := AllOk(results);
        assert failed.Failure?;
        assert failed == Failure(failed.error);
        assert failed.error == KeyError;
        return Failure(KeyError);
      }
      statements := statements + [s.value];
      i := i + 1;
    }
    var all := AllOk(results);
    assert all.Success?;
    assert |all.value| == |statements|;
    forall j | 0 <= j < |statements|
      ensures all.value[j] == statements[j]
    {
      assert results[j] == Success(all.value[j]);
    }
    assert all.value == statements;
    r := Success(statements);
  }

  /** `SQL.insert_all` up to the calls into the driver: the chunks are cut
      off first, then each gets its statement. */
  method InsertAll<V>(table: string, rows: Rows<V>, postgre: bool, maxInsertions: Option<nat>) returns (r: Result<seq<Statement<V>>, InsertError>)
    requires maxInsertions.Some? ==> maxInsertions.value >= 1
    ensures r == InsertAllSpec(table, rows, postgre, maxInsertions)
  {
    match rows
    case Tuples(ts) =>
      var parts := SplitRows(ts, maxInsertions);
      NonEmptyChunks(ts, maxInsertions);
      var statements := TupleStatements(table, parts, postgre);
      r := Success(statements);
    case Dicts(ds) =>
      var parts := SplitRows(ds, maxInsertions);
      NonEmptyChunks(ds, maxInsertions);
      r := DictStatements(table, parts, postgre);
  }

  // ---------------------------------------------------------------------
  // insert_all: placeholders

  lemma PlaceholdersCount(n: nat)
    ensures Count(Placeholders(n), '%') == n
  {
    assert Count("%s", '%') == 1;
    CountJoin(Repeat("%s", n), ",", '%', 1);
  }

  lemma GroupsCount(n: nat, rows: nat)
    ensures Count(Groups(n, rows), '%') == n * rows
  {
    var g := "(" + Placeholders(n) + ")";
    PlaceholdersCount(n);
    CountConcat("(", Placeholders(n), '%');
    CountConcat("(" + Placeholders(n), ")", '%');
    CountJoin(Repeat(g, rows), ",", '%', n);
  }

  /** Tuples of one width: the flat statement holds one placeholder per
      parameter. */
  lemma TuplePlaceholders<V>(table: string, part: seq<seq<V>>)
    requires part != [] && Plain(table)
    requires forall i :: 0 <= i < |part| ==> |part[i]| == |part[0]|
    ensures var s := TupleStatement(table, part, false);
      Count(s.text, '%') == |s.params|
  {
    var head := "INSERT INTO " + table + " VALUES ";
    CountNone(head, '%');
    GroupsCount(|part[0]|, |part|);
    CountConcat(head, Groups(|part[0]|, |part|), '%');
    FlattenLength(part, |part[0]|);
  }

  /** A chunk of dicts fails exactly when some dict lacks a key of the
      first one. */
  lemma DictStatementFails<V>(table: string, part: seq<Columns<V>>, postgre: bool)
    requires part != []
    ensures DictStatement(table, part, postgre).Failure?
      <==> exists j, k :: 0 <= j < |part| && 0 <= k < |part[0]| && part[0][k].0 !in Names(part[j])
  {
    var keys := Names(part[0]);
    RowsValuesOk(part, keys);
    forall j | 0 <= j < |part|
      ensures RowValues(part[j], keys).Success? <==> forall i :: 0 <= i < |keys| ==> keys[i] in Names(part[j])
    {
      RowValuesOk(part[j], keys);
    }
    if DictStatement(table, part, postgre).Failure? {
      var j :| 0 <= j < |part| && RowValues(part[j], keys).Failure?;
      var k :| 0 <= k < |keys| && keys[k] !in Names(part[j]);
      assert part[0][k].0 !in Names(part[j]);
    }
  }

  /** The text before the value groups holds no placeholder. */
  lemma DictHeadCount(table: string, keys: seq<string>)
    requires Plain(table) && forall k :: 0 <= k < |keys| ==> Plain(keys[k])
    ensures Count("INSERT INTO " + table + "(" + Join(keys, ",") + ") VALUES ", '%') == 0
  {
    NotInJoin(keys, ",", '%');
    CountNone("INSERT INTO " + table + "(" + Join(keys, ",") + ") VALUES ", '%');
  }

  /** With plain table and column names, a flat statement for dicts holds
      one placeholder per parameter, and each dict gives one value per key
      of the first dict. */
  lemma DictPlaceholders<V>(table: string, part: seq<Columns<V>>)
    requires part != [] && Plain(table) && forall k :: 0 <= k < |part[0]| ==> Plain(part[0][k].0)
    requires DictStatement(table, part, false).Success?
    ensures var s := DictStatement(table, part, false).value;
      s.Execute? && |s.params| == |part| * |part[0]| && Count(s.text, '%') == |s.params|
  {
    var keys := Names(part[0]);
    var vss := RowsValues(part, keys).value;
    var head := "INSERT INTO " + table + "(" + Join(keys, ",") + ") VALUES ";
    DictHeadCount(table, keys);
    GroupsCount(|keys|, |part|);
    CountConcat(head, Groups(|keys|, |part|), '%');
    FlattenLength(vss, |keys|);
  }

  // ---------------------------------------------------------------------
  // print_query

  /** Where Python's `s[:k]` and `s[k:]` cut a sequence of length `n`: a
      negative index counts from the end, and both are clamped. */
  function SliceIndex(k: int, n: nat): (r: nat)
    ensures r <= n
    ensures 0 <= k <= n ==> r == k
    ensures -(n as int) <= k < 0 ==> r as int == n as int + k
  {
    if k < 0 then (if n + k < 0 then 0 else n + k) else if k > n then n else k
  }

  /** The query `print_query` shows when it is longer than `max_size`:
      `query[:max_size // 2] + '...' + query[-max_size // 2:]`, where the
      second index is `(-max_size) // 2`. */
  function Truncated(query: string, maxSize: int): (r: string)
    ensures |query| <= maxSize ==> r == query
  {
    if |query| > maxSize then
      query[..SliceIndex(maxSize / 2, |query|)] + "..." + query[SliceIndex((-maxSize) / 2, |query|)..]
    else query
  }

  /** A long query keeps its first `max_size // 2` and its last
      `max_size - max_size // 2` characters around `...`: it then has
      `max_size + 3` characters. */
  lemma TruncatedLong(query: string, maxSize: int)
    requires |query| > maxSize >= 1
    ensures var head, tail := maxSize / 2, maxSize - maxSize / 2;
      Truncated(query, maxSize) == query[..head] + "..." + query[|query| - tail..]
      && |Truncated(query, maxSize)| == maxSize + 3
  {
    assert (-maxSize) / 2 == -(maxSize - maxSize / 2);
  }

  /** With `max_size` 0 nothing is cut: the whole query follows `...`. */
  lemma TruncatedZero(query: string)
    requires query != []
    ensures Truncated(query, 0) == "..." + query
  {
    assert query[..0] == [];
  }

  /** What `print_query` prints for a query without parameters: the
      shortened query, stripped, with a closing `;`. */
  function Shown(query: string, maxSize: int): (r: string)
    ensures EndsWith(r, ";") && |r| >= 1
    ensures r[..|r| - 1] == Trim(Truncated(query, maxSize))
  {
    Trim(Truncated(query, maxSize)) + ";"
  }

  /** The printed text is the truncated query without the whitespace around
      it, then `;`: a query no longer than `max_size` is shown whole, a
      longer one in at most `max_size + 4` characters. */
  lemma ShownText(query: string, maxSize: int) returns (i: nat, j: nat)
    ensures var t, r := Truncated(query, maxSize), Shown(query, maxSize);
      && i <= j <= |t| && r == t[i..j] + ";"
      && (forall k :: 0 <= k < i ==> IsSpace(t[k]))
      && (forall k :: j <= k < |t| ==> IsSpace(t[k]))
      && (i < j ==> !IsSpace(t[i]) && !IsSpace(t[j - 1]))
    ensures |query| <= maxSize ==> Shown(query, maxSize) == Trim(query) + ";"
    ensures |query| > maxSize >= 1 ==> |Shown(query, maxSize)| <= maxSize + 4
  {
    i, j := StripSlice(Truncated(query, maxSize), IsSpace);
    if |query| > maxSize >= 1 {
      TruncatedLong(query, maxSize);
    }
  }
}
