/**
 The part of PHP's PDO layer the engine talks to: a prepared statement that
 records its SQL text and the values bound to its named placeholders. What
 the store itself does (whether `execute` succeeds, which rows `fetchAll`
 returns, `rowCount`, `lastInsertId`) is not modelled: each statement carries
 a `StoreReply` that fixes those answers.
 */
module Pdo {
  import opened PhpRuntime

  /** `PDO::PARAM_INT`, or `PDO::PARAM_STR`, which `bindValue` uses when no
      type is given. */
  datatype ParamType = ParamInt | ParamStr

  /** One `bindValue(name, value, hint)` call. */
  datatype Binding = Binding(name: string, value: Value, hint: ParamType)

  /** What a placeholder is bound to. */
  datatype Param = Param(value: Value, hint: ParamType)

  /** The `PDO::FETCH_*` mode a caller asks for. `FetchOther` carries the code
      of any other mode. */
  datatype FetchMode = FetchObj | FetchAssoc | FetchClass | FetchOther(code: OtherFetchCode)

  /** A fetch-mode code other than 2 (`PDO::FETCH_ASSOC`), 5 (`PDO::FETCH_OBJ`)
      and 8 (`PDO::FETCH_CLASS`), which have constructors of their own. */
  type OtherFetchCode = c: int | c != 2 && c != 5 && c != 8

  /** The arguments `fetchAll` was called with: the mode alone, or the mode
      and a class name (which may be `null`). */
  datatype FetchCall =
    | FetchAll(mode: FetchMode)
    | FetchAllOfClass(mode: FetchMode, cls: Option<string>)

  /** A materialised row, whatever its shape. */
  type Row = map<string, Value>

  /** What `fetchAll` hands back: an array of rows, or something that is not
      an array (`false`). */
  datatype Fetched = Rows(rows: seq<Row>) | NotAnArray

  /** The store's answers for one statement. */
  datatype StoreReply = StoreReply(executes: bool, fetched: Fetched, rowCount: int, insertId: string)

  /** The placeholder map a sequence of `bindValue` calls leaves: a later call
      for the same name replaces the earlier one. */
  function BindingMap(bs: seq<Binding>): map<string, Param>
  {
    if bs == [] then map[]
    else
      var last := bs[|bs| - 1];
      var init := bs[..|bs| - 1];
      assert bs == init + [last];
      BindingMap(init)[last.name := Param(last.value, last.hint)]
  }

  /** No name is bound twice. */
  predicate DistinctNames(bs: seq<Binding>)
  {
    forall i, j :: 0 <= i < j < |bs| ==> bs[i].name != bs[j].name
  }

  /** Only names that some call bound appear in the placeholder map. */
  lemma {:induction false} BindingMapNames(bs: seq<Binding>, n: string)
    requires n in BindingMap(bs)
    ensures exists i :: 0 <= i < |bs| && bs[i].name == n
  {
    var init := bs[..|bs| - 1];
    if n != bs[|bs| - 1].name {
      BindingMapNames(init, n);
      var i :| 0 <= i < |init| && init[i].name == n;
      assert bs[i] == init[i];
    }
  }

  /** When every name is bound once, each placeholder holds the value of its
      own `bindValue` call. */
  lemma {:induction false} BindingMapAt(bs: seq<Binding>, i: nat)
    requires DistinctNames(bs) && i < |bs|
    ensures bs[i].name in BindingMap(bs)
    ensures BindingMap(bs)[bs[i].name] == Param(bs[i].value, bs[i].hint)
  {
    if i < |bs| - 1 {
      var init := bs[..|bs| - 1];
      assert init[i] == bs[i];
      BindingMapAt(init, i);
    }
  }

  /** A prepared statement (`PDOStatement`). */
  class Statement {
    /** The SQL text `prepare` was given. */
    const sql: string
    /** The store's answers for this statement. */
    const reply: StoreReply
    /** Every `bindValue` call so far, in order. */
    var binds: seq<Binding>
    var executed: bool
    /** The arguments of the `fetchAll` call, once made. */
    var fetchedWith: Option<FetchCall>

    constructor (sql: string, reply: StoreReply)
      ensures this.sql == sql && this.reply == reply
      ensures binds == [] && !executed && fetchedWith == None
    {
      this.sql := sql;
      this.reply := reply;
      binds := [];
      executed := false;
      fetchedWith := None;
    }

    /** The placeholder map the store will see. */
    function Bindings(): map<string, Param>
      reads this
    {
      BindingMap(binds)
    }

    /** `bindValue(name, value, hint)`. */
    method BindValue(name: string, value: Value, hint: ParamType)
      modifies this
      ensures binds == old(binds) + [Binding(name, value, hint)]
      ensures Bindings() == old(Bindings())[name := Param(value, hint)]
      ensures executed == old(executed) && fetchedWith == old(fetchedWith)
    {
      binds := binds + [Binding(name, value, hint)];
      assert binds[..|binds| - 1] == old(binds);
    }

    /** `execute()`: whether the store accepted the statement. */
    method Execute() returns (ok: bool)
      modifies this
      ensures ok == reply.executes
      ensures executed && binds == old(binds) && fetchedWith == old(fetchedWith)
    {
      executed := true;
      ok := reply.executes;
    }

    /** `fetchAll(...)` with the arguments in `call`. */
    method FetchAllRows(call: FetchCall) returns (f: Fetched)
      modifies this
      ensures f == reply.fetched
      ensures fetchedWith == Some(call) && binds == old(binds) && executed == old(executed)
    {
      fetchedWith := Some(call);
      f := reply.fetched;
    }

    /** `rowCount()`. */
    method RowCount() returns (n: int)
      ensures n == reply.rowCount
    {
      n := reply.rowCount;
    }
  }
}
