/** The MySQL client of db/mysql/client.py: statement text and parameter building
    for insert, update and delete (pure), the commit/rollback/close protocol of every
    statement (imperative, on a connection that records what is done on it), and the
    singleton construction of the client.

    The database server is given by how it answers: `execute` says whether a
    statement is rejected with an Error or accepted (with its rows, `lastrowid` and
    `rowcount`), `commit` whether a commit succeeds; both may depend on everything
    done on the connection before. */
module MySql {
  import opened Common

  /** One entry of a `data` dict, in insertion order: a column and its value. */
  datatype Field<V> = Field(column: string, value: V)

  /** A statement text and the parameters bound to its `%s` placeholders. */
  datatype Statement<V> = Statement(text: string, params: seq<V>)

  /** `data.keys()`. */
  function Columns<V>(data: seq<Field<V>>): seq<string>
  {
    seq(|data|, i requires 0 <= i < |data| => data[i].column)
  }

  /** `tuple(data.values())`. */
  function Values<V>(data: seq<Field<V>>): seq<V>
  {
    seq(|data|, i requires 0 <= i < |data| => data[i].value)
  }

  /** Each name wrapped in backticks and followed by `suffix`. */
  function Quoted(names: seq<string>, suffix: string): seq<string>
  {
    seq(|names|, i requires 0 <= i < |names| => "`" + names[i] + "`" + suffix)
  }

  /** The column list of insert: backticked columns joined with ", ". */
  function ColumnList<V>(data: seq<Field<V>>): string
  {
    Join(", ", Quoted(Columns(data), ""))
  }

  /** `', '.join(['%s'] * n)`. */
  function Placeholders(n: nat): string
  {
    Join(", ", seq(n, _ => "%s"))
  }

  /** The SET clause of update: one `` `col` = %s `` per column, joined with ", ". */
  function SetClause<V>(data: seq<Field<V>>): string
  {
    Join(", ", Quoted(Columns(data), " = %s"))
  }

  function InsertStatement<V>(table: string, data: seq<Field<V>>): Statement<V>
  {
    Statement("INSERT INTO `" + table + "` (" + ColumnList(data) + ") VALUES (" + Placeholders(|data|) + ")", Values(data))
  }

  function UpdateStatement<V>(table: string, data: seq<Field<V>>, where: string, params: seq<V>): Statement<V>
  {
    Statement("UPDATE `" + table + "` SET " + SetClause(data) + " WHERE " + where, Values(data) + params)
  }

  function DeleteStatement<V>(table: string, where: string, params: seq<V>): Statement<V>
  {
    Statement("DELETE FROM `" + table + "` WHERE " + where, params)
  }

  /** Joining parts that each hold k copies of c, with a separator free of c, gives
      k copies per part. */
  lemma {:induction false} JoinCount(sep: string, parts: seq<string>, c: char, k: nat)
    requires c !in sep
    requires forall i :: 0 <= i < |parts| ==> CountChar(parts[i], c) == k
    ensures CountChar(Join(sep, parts), c) == k * |parts|
    decreases |parts|
  {
    if |parts| > 1 {
      var tail := parts[1..];
      assert forall i :: 0 <= i < |tail| ==> tail[i] == parts[i + 1];
      JoinCount(sep, tail, c, k);
      JoinCountStep(sep, parts, c);
      assert CountChar(parts[0], c) == k;
      assert k * |parts| == k + k * |tail|;
    }
  }

  lemma JoinCountStep(sep: string, parts: seq<string>, c: char)
    requires c !in sep && |parts| > 1
    ensures CountChar(Join(sep, parts), c) == CountChar(parts[0], c) + CountChar(Join(sep, parts[1..]), c)
  {
    assert Join(sep, parts) == (parts[0] + sep) + Join(sep, parts[1..]);
    CountCharConcat(parts[0] + sep, Join(sep, parts[1..]), c);
    CountCharConcat(parts[0], sep, c);
    CountCharAbsent(sep, c);
  }

  lemma QuotedCount(names: seq<string>, suffix: string, c: char)
    requires c != '`' && forall i :: 0 <= i < |names| ==> c !in names[i]
    ensures forall i :: 0 <= i < |names| ==> CountChar(Quoted(names, suffix)[i], c) == CountChar(suffix, c)
  {
    forall i | 0 <= i < |names|
      ensures CountChar(Quoted(names, suffix)[i], c) == CountChar(suffix, c)
    {
      CountCharConcat("`" + names[i] + "`", suffix, c);
      CountCharConcat("`" + names[i], "`", c);
      CountCharConcat("`", names[i], c);
      CountCharAbsent("`", c);
      CountCharAbsent(names[i], c);
    }
  }

  /** The placeholder list holds exactly n `%s`. */
  lemma PlaceholderCount(n: nat)
    ensures CountChar(Placeholders(n), '%') == n
  {
    var parts := seq(n, _ => "%s");
    assert CountChar("%s", '%') == 1;
    JoinCount(", ", parts, '%', 1);
  }

  /** The SET clause holds one `%s` per column. */
  lemma SetClauseCount<V>(data: seq<Field<V>>)
    requires forall i :: 0 <= i < |data| ==> '%' !in data[i].column
    ensures CountChar(SetClause(data), '%') == |data|
  {
    var names := Columns(data);
    QuotedCount(names, " = %s", '%');
    assert CountChar(" = %s", '%') == 1;
    JoinCount(", ", Quoted(names, " = %s"), '%', 1);
  }

  lemma CountCharConcat7(a: string, b: string, c: string, d: string, e: string, f: string, g: string, ch: char)
    ensures CountChar(a + b + c + d + e + f + g, ch) ==
            CountChar(a, ch) + CountChar(b, ch) + CountChar(c, ch) + CountChar(d, ch) +
            CountChar(e, ch) + CountChar(f, ch) + CountChar(g, ch)
  {
    CountCharConcat(a + b + c + d + e + f, g, ch);
    CountCharConcat(a + b + c + d + e, f, ch);
    CountCharConcat(a + b + c + d, e, ch);
    CountCharConcat(a + b + c, d, ch);
    CountCharConcat(a + b, c, ch);
    CountCharConcat(a, b, ch);
  }

  lemma ColumnListCount<V>(data: seq<Field<V>>)
    requires forall i :: 0 <= i < |data| ==> '%' !in data[i].column
    ensures CountChar(ColumnList(data), '%') == 0
  {
    var names := Columns(data);
    QuotedCount(names, "", '%');
    assert CountChar("", '%') == 0;
    JoinCount(", ", Quoted(names, ""), '%', 0);
  }

  lemma InsertTextCount(table: string, cols: string, ph: string)
    ensures CountChar("INSERT INTO `" + table + "` (" + cols + ") VALUES (" + ph + ")", '%') ==
            CountChar(table, '%') + CountChar(cols, '%') + CountChar(ph, '%')
  {
    CountCharConcat7("INSERT INTO `", table, "` (", cols, ") VALUES (", ph, ")", '%');
    InsertIntoFree();
    OpenColumnsFree();
    ValuesFree();
    CloseFree();
  }

  lemma UpdateTextCount(table: string, clause: string, where: string)
    ensures CountChar("UPDATE `" + table + "` SET " + clause + " WHERE " + where, '%') ==
            CountChar(table, '%') + CountChar(clause, '%') + CountChar(where, '%')
  {
    CountCharConcat7("UPDATE `", table, "` SET ", clause, " WHERE ", where, "", '%');
    assert "UPDATE `" + table + "` SET " + clause + " WHERE " + where + "" ==
           "UPDATE `" + table + "` SET " + clause + " WHERE " + where;
    UpdateFree();
    SetFree();
    WhereFree();
    assert CountChar("", '%') == 0;
  }

  lemma DeleteTextCount(table: string, where: string)
    ensures CountChar("DELETE FROM `" + table + "` WHERE " + where, '%') == CountChar(table, '%') + CountChar(where, '%')
  {
    CountCharConcat("DELETE FROM `" + table + "` WHERE ", where, '%');
    CountCharConcat("DELETE FROM `" + table, "` WHERE ", '%');
    CountCharConcat("DELETE FROM `", table, '%');
    DeleteFromFree();
    TableWhereFree();
  }

  // The fixed fragments of the statement texts hold no '%'.
  lemma InsertIntoFree()
    ensures CountChar("INSERT INTO `", '%') == 0
  {
    CountCharAbsent("INSERT INTO `", '%');
  }

  lemma OpenColumnsFree()
    ensures CountChar("` (", '%') == 0
  {
    CountCharAbsent("` (", '%');
  }

  lemma ValuesFree()
    ensures CountChar(") VALUES (", '%') == 0
  {
    CountCharAbsent(") VALUES (", '%');
  }

  lemma CloseFree()
    ensures CountChar(")", '%') == 0
  {
    CountCharAbsent(")", '%');
  }

  lemma UpdateFree()
    ensures CountChar("UPDATE `", '%') == 0
  {
    CountCharAbsent("UPDATE `", '%');
  }

  lemma SetFree()
    ensures CountChar("` SET ", '%') == 0
  {
    CountCharAbsent("` SET ", '%');
  }

  lemma WhereFree()
    ensures CountChar(" WHERE ", '%') == 0
  {
    CountCharAbsent(" WHERE ", '%');
  }

  lemma DeleteFromFree()
    ensures CountChar("DELETE FROM `", '%') == 0
  {
    CountCharAbsent("DELETE FROM `", '%');
  }

  lemma TableWhereFree()
    ensures CountChar("` WHERE ", '%') == 0
  {
    CountCharAbsent("` WHERE ", '%');
  }

  /** The insert placeholders line up with its values: as many `%s` in the text as
      bound values, one per entry of data (when no name holds a '%'). */
  lemma InsertLinesUp<V>(table: string, data: seq<Field<V>>)
    requires '%' !in table && forall i :: 0 <= i < |data| ==> '%' !in data[i].column
    ensures var s := InsertStatement(table, data);
            CountChar(s.text, '%') == |s.params| == |data|
  {
    var cols := ColumnList(data);
    ColumnListCount(data);
    PlaceholderCount(|data|);
    var ph := Placeholders(|data|);
    InsertTextCount(table, cols, ph);
    CountCharAbsent(table, '%');
  }

  /** The update binds the data values, then the where params: its `%s` count equals
      its parameter count whenever that of the WHERE clause equals |params|. */
  lemma UpdateLinesUp<V>(table: string, data: seq<Field<V>>, where: string, params: seq<V>)
    requires '%' !in table && forall i :: 0 <= i < |data| ==> '%' !in data[i].column
    requires CountChar(where, '%') == |params|
    ensures var s := UpdateStatement(table, data, where, params);
            && s.params[..|data|] == Values(data) && s.params[|data|..] == params
            && CountChar(s.text, '%') == |s.params|
  {
    var clause := SetClause(data);
    SetClauseCount(data);
    UpdateTextCount(table, clause, where);
    CountCharAbsent(table, '%');
    var s := UpdateStatement(table, data, where, params);
    assert s.params[..|data|] == Values(data);
    assert s.params[|data|..] == params;
  }

  /** The delete passes its params unchanged; it has as many `%s` as params whenever
      the WHERE clause does. */
  lemma DeleteLinesUp<V>(table: string, where: string, params: seq<V>)
    requires '%' !in table && CountChar(where, '%') == |params|
    ensures var s := DeleteStatement(table, where, params);
            s.params == params && CountChar(s.text, '%') == |params|
  {
    DeleteTextCount(table, where);
    CountCharAbsent(table, '%');
  }

  /** Splits s at its first backtick. */
  function SplitAtTick(s: string): (r: Option<(string, string)>)
    ensures r.Some? ==> s == r.value.0 + "`" + r.value.1 && '`' !in r.value.0
    ensures r.None? ==> '`' !in s
    decreases |s|
  {
    if s == [] then None
    else if s[0] == '`' then Some(([], s[1..]))
    else
      match SplitAtTick(s[1..])
      case None => None
      case Some((name, rest)) =>
        assert s == [s[0]] + s[1..];
        Some(([s[0]] + name, rest))
  }

  /** Reads back a list of backticked names, each followed by `suffix`, separated by ", ". */
  function ParseQuoted(s: string, suffix: string): Option<seq<string>>
    decreases |s|
  {
    if s == [] then Some([])
    else if s[0] != '`' then None
    else
      match SplitAtTick(s[1..])
      case None => None
      case Some((name, rest)) =>
        if !(suffix <= rest) then None
        else
          var after := rest[|suffix|..];
          if after == [] then Some([name])
          else if |after| > 2 && after[..2] == ", " then
            match ParseQuoted(after[2..], suffix)
            case None => None
            case Some(names) => Some([name] + names)
          else None
  }

  lemma {:induction false} SplitAtFirstTick(a: string, b: string)
    requires '`' !in a
    ensures SplitAtTick(a + "`" + b) == Some((a, b))
    decreases |a|
  {
    if a == [] {
      assert a + "`" + b == "`" + b;
    } else {
      assert (a + "`" + b)[1..] == a[1..] + "`" + b;
      SplitAtFirstTick(a[1..], b);
      assert [a[0]] + a[1..] == a;
    }
  }

  /** A join of one or more parts starts with the first part. */
  lemma JoinStartsWith(sep: string, parts: seq<string>)
    requires |parts| > 0
    ensures parts[0] <= Join(sep, parts)
  {
  }

  /** Names free of backticks read back from their quoted list, in order. */
  lemma {:induction false} QuotedRoundTrip(names: seq<string>, suffix: string)
    requires forall i :: 0 <= i < |names| ==> '`' !in names[i]
    ensures ParseQuoted(Join(", ", Quoted(names, suffix)), suffix) == Some(names)
    decreases |names|
  {
    if |names| > 0 {
      var q := Quoted(names, suffix);
      var tail := if |names| == 1 then "" else ", " + Join(", ", q[1..]);
      var s := Join(", ", q);
      assert s == "`" + names[0] + "`" + (suffix + tail);
      assert s[1..] == names[0] + "`" + (suffix + tail);
      assert s[0] == '`';
      SplitAtFirstTick(names[0], suffix + tail);
      assert suffix <= suffix + tail;
      assert (suffix + tail)[|suffix|..] == tail;
      if |names| > 1 {
        assert Quoted(names[1..], suffix) == q[1..];
        JoinStartsWith(", ", q[1..]);
        assert |Join(", ", q[1..])| >= |q[1]| > 0;
        QuotedRoundTrip(names[1..], suffix);
        assert |tail| > 2 && tail[..2] == ", " && tail[2..] == Join(", ", q[1..]);
        assert ParseQuoted(tail[2..], suffix) == Some(names[1..]);
        assert [names[0]] + names[1..] == names;
      } else {
        assert names == [names[0]];
      }
    }
  }

  /** The insert column list reads back as the columns of data, in order. */
  lemma ColumnListRoundTrip<V>(data: seq<Field<V>>)
    requires forall i :: 0 <= i < |data| ==> '`' !in data[i].column
    ensures ParseQuoted(ColumnList(data), "") == Some(Columns(data))
  {
    QuotedRoundTrip(Columns(data), "");
  }

  /** The SET clause reads back as the columns of data, in order. */
  lemma SetClauseRoundTrip<V>(data: seq<Field<V>>)
    requires forall i :: 0 <= i < |data| ==> '`' !in data[i].column
    ensures ParseQuoted(SetClause(data), " = %s") == Some(Columns(data))
  {
    QuotedRoundTrip(Columns(data), " = %s");
  }

  /** A result row of a dictionary cursor. */
  type Row<V> = map<string, V>

  /** What is done on a connection, in order. */
  datatype Event<V> =
    | OpenCursor(dictionary: bool)
    | Execute(text: string, params: Option<seq<V>>)
    | FetchAll
    | Commit
    | Rollback
    | CloseCursor

  /** The server's answer to `cursor.execute`: an Error, or acceptance with the rows
      (present when `with_rows`), `lastrowid` and `rowcount`. */
  datatype Reply<V> = Rejected | Accepted(rows: Option<seq<Row<V>>>, lastRowId: int, rowCount: int)

  /** How the server answers, given everything done on the connection before. */
  datatype Database<!V> = Database(execute: (seq<Event<V>>, string, Option<seq<V>>) -> Reply<V>,
                                  commit: seq<Event<V>> -> bool)

  /** What is done on the connection for one call, and what the call yields. */
  datatype Exchange<T, V> = Exchange(events: seq<Event<V>>, result: Result<T>)

  /** Which cursor attribute a write returns. */
  datatype Pick = LastRowId | RowCount

  /** execute_query on a connection in the given state: rows are fetched and returned
      without a commit; otherwise a commit and None; an Error rolls back and re-raises;
      the cursor is closed on every path. */
  function QueryExchange<V>(open: bool, history: seq<Event<V>>, db: Database<V>, query: string,
                            params: Option<seq<V>>): Exchange<Option<seq<Row<V>>>, V>
  {
    if !open then Exchange([], Raised(DatabaseError))
    else
      var start := [OpenCursor(true), Execute(query, params)];
      match db.execute(history + [OpenCursor(true)], query, params)
      case Rejected => Exchange(start + [Rollback, CloseCursor], Raised(DatabaseError))
      case Accepted(rows, _, _) =>
        if rows.Some? then Exchange(start + [FetchAll, CloseCursor], Ok(rows))
        else if db.commit(history + start) then Exchange(start + [Commit, CloseCursor], Ok(None))
        else Exchange(start + [Commit, Rollback, CloseCursor], Raised(DatabaseError))
  }

  /** insert, update and delete on a connection in the given state: execute, commit,
      return the picked cursor attribute; an Error rolls back and re-raises; the
      cursor is closed on every path. */
  function WriteExchange<V>(open: bool, history: seq<Event<V>>, db: Database<V>, s: Statement<V>, pick: Pick): Exchange<int, V>
  {
    if !open then Exchange([], Raised(DatabaseError))
    else
      var start := [OpenCursor(false), Execute(s.text, Some(s.params))];
      match db.execute(history + [OpenCursor(false)], s.text, Some(s.params))
      case Rejected => Exchange(start + [Rollback, CloseCursor], Raised(DatabaseError))
      case Accepted(_, lastRowId, rowCount) =>
        if db.commit(history + start) then
          Exchange(start + [Commit, CloseCursor], Ok(if pick == LastRowId then lastRowId else rowCount))
        else Exchange(start + [Commit, Rollback, CloseCursor], Raised(DatabaseError))
  }

  /** The statement protocol of execute_query. */
  lemma QueryDiscipline<V>(open: bool, history: seq<Event<V>>, db: Database<V>, query: string, params: Option<seq<V>>)
    ensures !open ==> QueryExchange(open, history, db, query, params) == Exchange([], Raised(DatabaseError))
    ensures var x := QueryExchange(open, history, db, query, params);
            open ==> |x.events| >= 3 && x.events[..2] == [OpenCursor(true), Execute(query, params)]
    ensures var x := QueryExchange(open, history, db, query, params);
            open ==> x.events[|x.events| - 1] == CloseCursor && CloseCursor !in x.events[..|x.events| - 1]
    ensures var x := QueryExchange(open, history, db, query, params);
            open ==> (x.result.Raised? <==> Rollback in x.events)
    ensures var x := QueryExchange(open, history, db, query, params);
            x.result == Ok(None) <==> Commit in x.events && Rollback !in x.events
    ensures var x := QueryExchange(open, history, db, query, params);
            x.result.Ok? && x.result.value.Some? <==> FetchAll in x.events
    ensures var x := QueryExchange(open, history, db, query, params);
            FetchAll in x.events ==> Commit !in x.events
    ensures var x := QueryExchange(open, history, db, query, params);
            var reply := db.execute(history + [OpenCursor(true)], query, params);
            x.result.Ok? ==> reply.Accepted? && x.result.value == reply.rows
  {
    var x := QueryExchange(open, history, db, query, params);
    var start: seq<Event<V>> := [OpenCursor(true), Execute(query, params)];
    if open {
      match db.execute(history + [OpenCursor(true)], query, params)
      case Rejected =>
        assert x.events == start + [Rollback, CloseCursor];
        assert x.events[..3] == start + [Rollback];
      case Accepted(rows, _, _) =>
        if rows.Some? {
          assert x.events == start + [FetchAll, CloseCursor];
          assert x.events[..3] == start + [FetchAll];
        } else if db.commit(history + start) {
          assert x.events == start + [Commit, CloseCursor];
          assert x.events[..3] == start + [Commit];
        } else {
          assert x.events == start + [Commit, Rollback, CloseCursor];
          assert x.events[..4] == start + [Commit, Rollback];
        }
    }
  }

  /** The statement protocol of insert, update and delete. */
  lemma WriteDiscipline<V>(open: bool, history: seq<Event<V>>, db: Database<V>, s: Statement<V>, pick: Pick)
    ensures !open ==> WriteExchange(open, history, db, s, pick) == Exchange([], Raised(DatabaseError))
    ensures var x := WriteExchange(open, history, db, s, pick);
            x.result.Ok? <==> open && x.events == [OpenCursor(false), Execute(s.text, Some(s.params)), Commit, CloseCursor]
    ensures var x := WriteExchange(open, history, db, s, pick);
            var reply := db.execute(history + [OpenCursor(false)], s.text, Some(s.params));
            x.result.Ok? ==> reply.Accepted? && x.result.value == (if pick == LastRowId then reply.lastRowId else reply.rowCount)
    ensures var x := WriteExchange(open, history, db, s, pick);
            var n := |x.events|;
            open && x.result.Raised? ==>
              && n >= 4 && x.events[..2] == [OpenCursor(false), Execute(s.text, Some(s.params))]
              && x.events[n - 2] == Rollback && x.events[n - 1] == CloseCursor
    ensures var x := WriteExchange(open, history, db, s, pick);
            x.result.Raised? ==> Commit !in x.events || Rollback in x.events
  {
    var x := WriteExchange(open, history, db, s, pick);
    var start: seq<Event<V>> := [OpenCursor(false), Execute(s.text, Some(s.params))];
    if open {
      match db.execute(history + [OpenCursor(false)], s.text, Some(s.params))
      case Rejected =>
        assert x.events == start + [Rollback, CloseCursor];
        assert x.events[..2] == start;
      case Accepted(_, _, _) =>
        if db.commit(history + start) {
          assert x.events == start + [Commit, CloseCursor];
        } else {
          assert x.events == start + [Commit, Rollback, CloseCursor];
          assert x.events[..2] == start;
        }
    }
  }

  /** A connection: whether it is connected and everything done on it. */
  class Connection<V> {
    const db: Database<V>
    var open: bool
    var log: seq<Event<V>>

    constructor (db: Database<V>)
      ensures this.db == db && open && log == []
    {
      this.db := db;
      open := true;
      log := [];
    }

    method OpenCursor(dictionary: bool)
      modifies this
      ensures log == old(log) + [Event.OpenCursor(dictionary)] && open == old(open)
    {
      log := log + [Event.OpenCursor(dictionary)];
    }

    method Execute(text: string, params: Option<seq<V>>) returns (reply: Reply<V>)
      modifies this
      ensures reply == db.execute(old(log), text, params)
      ensures log == old(log) + [Event.Execute(text, params)] && open == old(open)
    {
      reply := db.execute(log, text, params);
      log := log + [Event.Execute(text, params)];
    }

    method FetchAll()
      modifies this
      ensures log == old(log) + [Event.FetchAll] && open == old(open)
    {
      log := log + [Event.FetchAll];
    }

    method Commit() returns (ok: bool)
      modifies this
      ensures ok == db.commit(old(log))
      ensures log == old(log) + [Event.Commit] && open == old(open)
    {
      ok := db.commit(log);
      log := log + [Event.Commit];
    }

    method Rollback()
      modifies this
      ensures log == old(log) + [Event.Rollback] && open == old(open)
    {
      log := log + [Event.Rollback];
    }

    method CloseCursor()
      modifies this
      ensures log == old(log) + [Event.CloseCursor] && open == old(open)
    {
      log := log + [Event.CloseCursor];
    }

    method Close()
      modifies this
      ensures !open && log == old(log)
    {
      open := false;
    }
  }

  /** A MySQLClient object: its connection (null until one is made). */
  class MySQLClient<V> {
    var connection: Connection?<V>

    constructor ()
      ensures connection == null
    {
      connection := null;
    }

    predicate Live()
      reads this, connection
    {
      connection != null && connection.open
    }

    method ExecuteQuery(query: string, params: Option<seq<V>> := None) returns (r: Result<Option<seq<Row<V>>>>)
      requires connection != null
      modifies connection
      ensures var x := QueryExchange(old(connection.open), old(connection.log), connection.db, query, params);
              connection.log == old(connection.log) + x.events && r == x.result
      ensures connection.open == old(connection.open)
    {
      var c := connection;
      if !c.open {
        assert c.log == c.log + [];
        return Raised(DatabaseError);
      }
      c.OpenCursor(true);
      var reply := c.Execute(query, params);
      assert c.log == old(connection.log) + [OpenCursor(true), Execute(query, params)];
      if reply.Rejected? {
        c.Rollback();
        c.CloseCursor();
        return Raised(DatabaseError);
      }
      if reply.rows.Some? {
        c.FetchAll();
        c.CloseCursor();
        return Ok(reply.rows);
      }
      var ok := c.Commit();
      if !ok {
        c.Rollback();
        c.CloseCursor();
        return Raised(DatabaseError);
      }
      c.CloseCursor();
      r := Ok(None);
    }

    /** The try/except/finally shared by insert, update and delete. */
    method Write(s: Statement<V>, pick: Pick) returns (r: Result<int>)
      requires connection != null
      modifies connection
      ensures var x := WriteExchange(old(connection.open), old(connection.log), connection.db, s, pick);
              connection.log == old(connection.log) + x.events && r == x.result
      ensures connection.open == old(connection.open)
    {
      var c := connection;
      if !c.open {
        assert c.log == c.log + [];
        return Raised(DatabaseError);
      }
      c.OpenCursor(false);
      var reply := c.Execute(s.text, Some(s.params));
      assert c.log == old(connection.log) + [OpenCursor(false), Execute(s.text, Some(s.params))];
      if reply.Rejected? {
        c.Rollback();
        c.CloseCursor();
        return Raised(DatabaseError);
      }
      var ok := c.Commit();
      if !ok {
        c.Rollback();
        c.CloseCursor();
        return Raised(DatabaseError);
      }
      c.CloseCursor();
      r := Ok(if pick == LastRowId then reply.lastRowId else reply.rowCount);
    }

    method Insert(table: string, data: seq<Field<V>>) returns (r: Result<int>)
      requires connection != null
      modifies connection
      ensures var x := WriteExchange(old(connection.open), old(connection.log), connection.db,
                                     InsertStatement(table, data), LastRowId);
              connection.log == old(connection.log) + x.events && r == x.result
      ensures connection.open == old(connection.open)
    {
      r := Write(InsertStatement(table, data), LastRowId);
    }

    method Update(table: string, data: seq<Field<V>>, where: string, params: seq<V>) returns (r: Result<int>)
      requires connection != null
      modifies connection
      ensures var x := WriteExchange(old(connection.open), old(connection.log), connection.db,
                                     UpdateStatement(table, data, where, params), RowCount);
              connection.log == old(connection.log) + x.events && r == x.result
      ensures connection.open == old(connection.open)
    {
      r := Write(UpdateStatement(table, data, where, params), RowCount);
    }

    method Delete(table: string, where: string, params: seq<V>) returns (r: Result<int>)
      requires connection != null
      modifies connection
      ensures var x := WriteExchange(old(connection.open), old(connection.log), connection.db,
                                     DeleteStatement(table, where, params), RowCount);
              connection.log == old(connection.log) + x.events && r == x.result
      ensures connection.open == old(connection.open)
    {
      r := Write(DeleteStatement(table, where, params), RowCount);
    }

    /** close: a live connection is closed; otherwise nothing happens. */
    method Close()
      modifies connection
      ensures connection != null ==> !connection.open && connection.log == old(connection.log)
    {
      if connection != null && connection.open {
        connection.Close();
      }
    }
  }

  /** The class object MySQLClient: its class attributes `_instance` and `_connection`. */
  class ClientClass<V> {
    var instance: MySQLClient?<V>
    var classConnection: Connection?<V>

    constructor ()
      ensures instance == null && classConnection == null
    {
      instance := null;
      classConnection := null;
    }

    /** `__new__`: the instance is created on first use and returned ever after. */
    method New() returns (client: MySQLClient<V>)
      modifies this
      ensures old(instance) != null ==> client == old(instance)
      ensures old(instance) == null ==> fresh(client) && client.connection == null
      ensures instance == client && classConnection == old(classConnection)
    {
      if instance == null {
        instance := new MySQLClient();
      }
      client := instance;
    }

    /** `MySQLClient()` as written: `__init__` tests the class attribute `_connection`,
        which nothing assigns, so it connects again on every construction. */
    method ConstructAsWritten(db: Database<V>, reachable: bool) returns (client: MySQLClient<V>, r: Result<()>)
      modifies this, instance
      ensures old(instance) != null ==> client == old(instance)
      ensures instance == client && classConnection == old(classConnection)
      ensures old(classConnection) == null ==>
                if reachable then r == Ok(()) && fresh(client.connection) && client.connection.open && client.connection.db == db
                else r == Raised(DatabaseError)
      ensures !reachable && old(instance) != null ==> client.connection == old(instance.connection)
      ensures !reachable && old(instance) == null ==> client.connection == null
    {
      client := New();
      if classConnection == null || !client.Live() {
        if reachable {
          client.connection := new Connection(db);
          r := Ok(());
        } else {
          r := Raised(DatabaseError);
        }
      } else {
        r := Ok(());
      }
    }

    /** `MySQLClient()` with `__init__` testing the instance's own connection: a live
        connection is kept, otherwise a new one is made. */
    method Construct(db: Database<V>, reachable: bool) returns (client: MySQLClient<V>, r: Result<()>)
      modifies this, instance
      ensures old(instance) != null ==> client == old(instance)
      ensures instance == client && classConnection == old(classConnection)
      ensures old(instance) != null && old(instance.Live()) ==> client.connection == old(instance.connection) && r == Ok(())
      ensures !(old(instance) != null && old(instance.Live())) ==>
                if reachable then r == Ok(()) && fresh(client.connection) && client.connection.open && client.connection.db == db
                else r == Raised(DatabaseError)
      ensures !reachable && old(instance) != null ==> client.connection == old(instance.connection)
      ensures !reachable && old(instance) == null ==> client.connection == null
    {
      client := New();
      if !client.Live() {
        if reachable {
          client.connection := new Connection(db);
          r := Ok(());
        } else {
          r := Raised(DatabaseError);
        }
      } else {
        r := Ok(());
      }
    }
  }

  /** As written, two constructions yield the same client but a second connection. */
  method ReconnectsOnEveryConstruction<V>(db: Database<V>) returns (sameClient: bool, sameConnection: bool)
    ensures sameClient && !sameConnection
  {
    var cls := new ClientClass<V>();
    var a, _ := cls.ConstructAsWritten(db, true);
    var first := a.connection;
    var b, _ := cls.ConstructAsWritten(db, true);
    sameClient := a == b;
    sameConnection := first == b.connection;
  }

  /** With the intended test, two constructions share the client and its connection. */
  method ReusesLiveConnection<V>(db: Database<V>) returns (sameClient: bool, sameConnection: bool)
    ensures sameClient && sameConnection
  {
    var cls := new ClientClass<V>();
    var a, _ := cls.Construct(db, true);
    var first := a.connection;
    var b, _ := cls.Construct(db, true);
    sameClient := a == b;
    sameConnection := first == b.connection;
  }
}
