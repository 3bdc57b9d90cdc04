/**
 The SQLite engine (`SQLiteEngine`): a PDO connection that turns CRUD calls
 into prepared statements. Each CRUD method is given the store's answers for
 the one statement it prepares (`reply`), and hands back that statement
 together with its result so that callers can see the SQL text and the
 bindings it was sent with.
 */
module Engines {
  import opened PhpRuntime
  import opened KeySort
  import opened Pdo
  import opened SqlText

  /** What `getDriverName` reports. */
  const DRIVER_NAME: string := "SQlite Driver"

  /** The file `$config['file']` names, or the empty string (PHP's `null` in
      a string context) when the key is missing. */
  function StoreFile(config: map<string, string>): string
  {
    if "file" in config then config["file"] else ""
  }

  /** The `fetchAll` arguments for a fetch mode: the class name is passed only
      with `PDO::FETCH_CLASS`. */
  function FetchArgs(mode: FetchMode, cls: Option<string>): FetchCall
  {
    if mode == FetchClass then FetchAllOfClass(mode, cls) else FetchAll(mode)
  }

  /** The SET loop, `$fieldDetails .= "$key = :field_$key,"` for each column,
      then `rtrim($fieldDetails, ',')`. */
  method BuildSetDetails(sorted: Entries) returns (details: string)
    ensures details == SetClause(sorted)
  {
    details := "";
    var i := 0;
    while i < |sorted|
      invariant 0 <= i <= |sorted|
      invariant details == Terminated(Equations(":field_", sorted[..i]), ",")
    {
      var key := sorted[i].0;
      ghost var before := details;
      details := details + key + " = :field_" + key + ",";
      assert details == before + Equation(":field_", key) + ",";
      assert sorted[..i + 1][..i] == sorted[..i];
      assert Equations(":field_", sorted[..i + 1]) == Equations(":field_", sorted[..i]) + [Equation(":field_", key)];
      i := i + 1;
    }
    assert sorted[..i] == sorted;
    details := RTrim(details, SET_TRIM);
  }

  /** The WHERE loop, the first condition alone and every later one after
      " AND ", then `ltrim($whereDetails, ' AND ')`. `prefix` is `:where_` for
      an update and `:` for a delete. */
  method BuildWhereDetails(where: Entries, prefix: string) returns (details: string)
    ensures details == WhereClause(prefix, where)
  {
    details := "";
    var i := 0;
    while i < |where|
      invariant 0 <= i <= |where|
      invariant details == Join(" AND ", Equations(prefix, where[..i]))
    {
      var key := where[i].0;
      if i == 0 {
        details := details + key + " = " + prefix + key;
      } else {
        details := details + " AND " + key + " = " + prefix + key;
      }
      assert where[..i + 1][..i] == where[..i];
      i := i + 1;
    }
    assert where[..i] == where;
    details := LTrim(details, WHERE_TRIM);
  }

  class SQLiteEngine {
    /** The configuration the engine was built from. */
    const config: map<string, string>
    /** The PDO data source name the connection was opened with. */
    const dsn: string

    constructor (config: map<string, string>)
      ensures this.config == config
      ensures dsn == "sqlite:" + StoreFile(config)
    {
      this.config := config;
      dsn := "sqlite:" + StoreFile(config);
    }

    method GetDriverName() returns (name: string)
      ensures name == DRIVER_NAME
    {
      name := DRIVER_NAME;
    }

    /** The configuration given to the constructor. */
    method GetConfiguration() returns (c: map<string, string>)
      ensures c == config
    {
      c := config;
    }

    /** The engine is its own native connection. */
    method GetConnection() returns (c: SQLiteEngine)
      ensures c == this
    {
      c := this;
    }

    /** `prepare($sql)`: a fresh statement that records the text. */
    method Prepare(sql: string, reply: StoreReply) returns (stmt: Statement)
      ensures fresh(stmt)
      ensures stmt.sql == sql && stmt.reply == reply
      ensures stmt.binds == [] && !stmt.executed && stmt.fetchedWith == None
    {
      stmt := new Statement(sql, reply);
    }

    /** `lastInsertId()`: the identity the store gave the row the last
        executed statement inserted. */
    method LastInsertId(last: Statement) returns (id: string)
      ensures id == last.reply.insertId
    {
      id := last.reply.insertId;
    }

    /** One `bindValue("$prefix$key", $value[, hint])` per entry, in order. */
    method BindAll(stmt: Statement, prefix: string, e: Entries, typed: bool)
      modifies stmt
      ensures stmt.binds == old(stmt.binds) + Binds(prefix, e, typed)
      ensures stmt.executed == old(stmt.executed) && stmt.fetchedWith == old(stmt.fetchedWith)
    {
      var i := 0;
      while i < |e|
        invariant 0 <= i <= |e|
        invariant stmt.binds == old(stmt.binds) + Binds(prefix, e[..i], typed)
        invariant stmt.executed == old(stmt.executed) && stmt.fetchedWith == old(stmt.fetchedWith)
      {
        var (key, value) := e[i];
        if typed && value.IntV? {
          stmt.BindValue(prefix + key, value, ParamInt);
        } else {
          stmt.BindValue(prefix + key, value, ParamStr);
        }
        assert e[..i + 1][..i] == e[..i];
        i := i + 1;
      }
      assert e[..i] == e;
    }

    /** `select($sql, $array, $fetchMode, $class)`. */
    method Select(sql: string, params: Entries, mode: FetchMode, cls: Option<string>, reply: StoreReply)
      returns (r: OrFalse<seq<Row>>, stmt: Statement)
      ensures fresh(stmt)
      ensures stmt.sql == NormalizeSelect(sql)
      ensures stmt.binds == Binds("", params, true)
      ensures stmt.executed && stmt.fetchedWith == Some(FetchArgs(mode, cls))
      ensures r.Val? ==> reply.fetched == Rows(r.value) && |r.value| > 0
      ensures r.False? <==> (reply.fetched.NotAnArray? || reply.fetched.rows == [])
    {
      var query := sql;
      if !HasSelectKeyword(query) {
        query := "SELECT " + query;
      }
      stmt := Prepare(query, reply);
      BindAll(stmt, "", params, true);
      var _ := stmt.Execute();
      var fetched: Fetched;
      if mode == FetchClass {
        fetched := stmt.FetchAllRows(FetchAllOfClass(mode, cls));
      } else {
        fetched := stmt.FetchAllRows(FetchAll(mode));
      }
      if fetched.Rows? && |fetched.rows| > 0 {
        r := Val(fetched.rows);
      } else {
        r := False;
      }
    }

    /** `insert($table, $data)`. */
    method Insert(table: string, data: Entries, reply: StoreReply)
      returns (r: OrFalse<string>, stmt: Statement)
      ensures fresh(stmt)
      ensures stmt.sql == InsertSql(table, KSort(data))
      ensures stmt.binds == Binds(":", KSort(data), false)
      ensures stmt.executed
      ensures r == if reply.executes then Val(reply.insertId) else False
    {
      var sorted := KSort(data);
      var fieldNames := Join(",", Keys(sorted));
      var fieldValues := ":" + Join(", :", Keys(sorted));
      stmt := Prepare("INSERT INTO " + table + " (" + fieldNames + ") VALUES (" + fieldValues + ")", reply);
      BindAll(stmt, ":", sorted, false);
      var ok := stmt.Execute();
      if !ok {
        return False, stmt;
      }
      var id := LastInsertId(stmt);
      r := Val(id);
    }

    /** `update($table, $data, $where)`: `$data` is sorted, `$where` is not. */
    method Update(table: string, data: Entries, where: Entries, reply: StoreReply)
      returns (r: OrFalse<int>, stmt: Statement)
      ensures fresh(stmt)
      ensures stmt.sql == UpdateSql(table, KSort(data), where)
      ensures stmt.binds == UpdateBinds(KSort(data), where)
      ensures stmt.executed
      ensures r == if reply.executes then Val(reply.rowCount) else False
    {
      var sorted := KSort(data);
      var fieldDetails := BuildSetDetails(sorted);
      var whereDetails := BuildWhereDetails(where, ":where_");
      var text := "UPDATE " + table + " SET " + fieldDetails + " WHERE " + whereDetails;
      assert text == UpdateSql(table, sorted, where);
      stmt := Prepare(text, reply);
      BindAll(stmt, ":field_", sorted, false);
      BindAll(stmt, ":where_", where, false);
      assert stmt.binds == UpdateBinds(sorted, where);
      var ok := stmt.Execute();
      if !ok {
        return False, stmt;
      }
      var n := stmt.RowCount();
      r := Val(n);
    }

    /** `delete($table, $where)`. */
    method Delete(table: string, where: Entries, reply: StoreReply)
      returns (r: OrFalse<int>, stmt: Statement)
      ensures fresh(stmt)
      ensures stmt.sql == DeleteSql(table, KSort(where))
      ensures stmt.binds == Binds(":", KSort(where), false)
      ensures stmt.executed
      ensures r == if reply.executes then Val(reply.rowCount) else False
    {
      var sorted := KSort(where);
      var whereDetails := BuildWhereDetails(sorted, ":");
      stmt := Prepare("DELETE FROM " + table + " WHERE " + whereDetails, reply);
      BindAll(stmt, ":", sorted, false);
      var ok := stmt.Execute();
      if !ok {
        return False, stmt;
      }
      var n := stmt.RowCount();
      r := Val(n);
    }
  }
}
