/**
 What the engine's CRUD operations send to the store: the SQL text and the
 `bindValue` calls each one issues, as functions of the caller's arguments,
 and what those texts and bindings guarantee.
 */
module SqlText {
  import opened PhpRuntime
  import opened KeySort
  import opened Pdo

  /** `ltrim($whereDetails, ' AND ')` reads its second argument as this set of
      characters, not as the prefix " AND ". */
  const WHERE_TRIM: set<char> := {' ', 'A', 'N', 'D'}

  /** `rtrim($fieldDetails, ',')`. */
  const SET_TRIM: set<char> := {','}

  // ---------------------------------------------------------------- select

  /** `strtolower(substr($sql, 0, 7)) === 'select '`. */
  predicate HasSelectKeyword(sql: string)
  {
    ToLower(Prefix(sql, 7)) == "select "
  }

  /** The query `select` prepares: the caller's text, with `SELECT ` in front
      unless it already starts with that keyword in any letter case. */
  function NormalizeSelect(sql: string): (r: string)
    ensures HasSelectKeyword(r)
    ensures r == sql <==> HasSelectKeyword(sql)
    ensures r == sql || r == "SELECT " + sql
  {
    if !HasSelectKeyword(sql) then
      var r := "SELECT " + sql;
      assert Prefix(r, 7) == "SELECT ";
      r
    else sql
  }

  // ------------------------------------------------- placeholders, bindings

  /** `"$key = $prefix$key"`: one assignment or one filter condition. */
  function Equation(prefix: string, key: string): string
  {
    key + " = " + prefix + key
  }

  /** One equation per entry, in the array's order. */
  function Equations(prefix: string, e: Entries): (r: seq<string>)
    ensures |r| == |e|
    ensures forall i :: 0 <= i < |e| ==> r[i] == Equation(prefix, e[i].0)
  {
    if e == [] then []
    else Equations(prefix, e[..|e| - 1]) + [Equation(prefix, e[|e| - 1].0)]
  }

  /** The type hint a value is bound with: `select` passes `PDO::PARAM_INT`
      for integers (`typed`), every other call leaves the default. */
  function HintFor(typed: bool, v: Value): ParamType
  {
    if typed && v.IntV? then ParamInt else ParamStr
  }

  /** One `bindValue("$prefix$key", $value, hint)` call per entry, in order. */
  function Binds(prefix: string, e: Entries, typed: bool): (r: seq<Binding>)
    ensures |r| == |e|
    ensures forall i :: 0 <= i < |e| ==>
      r[i] == Binding(prefix + e[i].0, e[i].1, HintFor(typed, e[i].1))
  {
    if e == [] then []
    else Binds(prefix, e[..|e| - 1], typed) + [Binding(prefix + e[|e| - 1].0, e[|e| - 1].1, HintFor(typed, e[|e| - 1].1))]
  }

  // --------------------------------------------------------------- clauses

  /** `$fieldNames`: the column list of an INSERT. */
  function ColumnList(sorted: Entries): string
  {
    Join(",", Keys(sorted))
  }

  /** `$fieldValues`: `':' . implode(', :', array_keys($data))`. */
  function PlaceholderList(sorted: Entries): string
  {
    ":" + Join(", :", Keys(sorted))
  }

  /** `$fieldDetails` after `rtrim`. */
  function SetClause(sorted: Entries): string
  {
    RTrim(Terminated(Equations(":field_", sorted), ","), SET_TRIM)
  }

  /** `$whereDetails` after `ltrim`: the filter conditions joined by AND. */
  function WhereClause(prefix: string, e: Entries): string
  {
    LTrim(Join(" AND ", Equations(prefix, e)), WHERE_TRIM)
  }

  // ------------------------------------------------------------ statements

  function InsertSql(table: string, sorted: Entries): string
  {
    "INSERT INTO " + table + " (" + ColumnList(sorted) + ") VALUES (" + PlaceholderList(sorted) + ")"
  }

  function UpdateSql(table: string, sorted: Entries, where: Entries): string
  {
    "UPDATE " + table + " SET " + SetClause(sorted) + " WHERE " + WhereClause(":where_", where)
  }

  function DeleteSql(table: string, sorted: Entries): string
  {
    "DELETE FROM " + table + " WHERE " + WhereClause(":", sorted)
  }

  function UpdateBinds(sorted: Entries, where: Entries): seq<Binding>
  {
    Binds(":field_", sorted, false) + Binds(":where_", where, false)
  }

  // ================================================================ lemmas

  /** Normalising a query twice prefixes the keyword at most once. */
  lemma NormalizeSelectIdempotent(sql: string)
    ensures NormalizeSelect(NormalizeSelect(sql)) == NormalizeSelect(sql)
  {
  }

  /** A query the caller already began with `select ` (in any case) is sent
      unchanged; the keyword is never doubled. */
  lemma {:induction false} SelectPrefixedNotDoubled(rest: string, kw: string)
    requires |kw| == 7 && ToLower(kw) == "select "
    ensures NormalizeSelect(kw + rest) == kw + rest
  {
    PrefixOfExtension(kw, rest, 7);
  }

  /** The keyword test ignores letter case: lower-casing the query first
      changes nothing about whether it is prefixed. */
  lemma SelectKeywordIgnoresCase(sql: string)
    ensures HasSelectKeyword(ToLower(sql)) <==> HasSelectKeyword(sql)
  {
    ToLowerPrefix(sql, 7);
    ToLowerIdempotent(Prefix(sql, 7));
  }

  /** Prefixing every key with the same text keeps the names distinct. */
  lemma BindsDistinct(prefix: string, e: Entries, typed: bool)
    requires DistinctKeys(e)
    ensures DistinctNames(Binds(prefix, e, typed))
  {
    var bs := Binds(prefix, e, typed);
    forall i, j | 0 <= i < j < |bs| ensures bs[i].name != bs[j].name {
      assert (prefix + e[i].0)[|prefix|..] == e[i].0;
      assert (prefix + e[j].0)[|prefix|..] == e[j].0;
    }
  }

  /** The placeholder map binds each `prefix . key` to that key's value. */
  lemma BindsAt(prefix: string, e: Entries, typed: bool, i: nat)
    requires DistinctKeys(e) && i < |e|
    ensures prefix + e[i].0 in BindingMap(Binds(prefix, e, typed))
    ensures BindingMap(Binds(prefix, e, typed))[prefix + e[i].0] == Param(e[i].1, HintFor(typed, e[i].1))
  {
    BindsDistinct(prefix, e, typed);
    BindingMapAt(Binds(prefix, e, typed), i);
  }

  /** ... and binds nothing else. */
  lemma BindsOnlyKeys(prefix: string, e: Entries, typed: bool, n: string)
    requires n in BindingMap(Binds(prefix, e, typed))
    ensures exists i :: 0 <= i < |e| && n == prefix + e[i].0
  {
    BindingMapNames(Binds(prefix, e, typed), n);
  }

  /** `select` binds every parameter once, under its key exactly as given;
      integers carry `PDO::PARAM_INT` and nothing else does. */
  lemma SelectBindsExact(params: Entries)
    requires DistinctKeys(params)
    ensures DistinctNames(Binds("", params, true))
    ensures forall i :: 0 <= i < |params| ==>
      params[i].0 in BindingMap(Binds("", params, true)) &&
      BindingMap(Binds("", params, true))[params[i].0].value == params[i].1 &&
      (BindingMap(Binds("", params, true))[params[i].0].hint == ParamInt <==> params[i].1.IntV?)
    ensures forall n :: n in BindingMap(Binds("", params, true)) ==>
      exists i :: 0 <= i < |params| && n == params[i].0
  {
    BindsDistinct("", params, true);
    forall i | 0 <= i < |params|
      ensures params[i].0 in BindingMap(Binds("", params, true))
      ensures BindingMap(Binds("", params, true))[params[i].0] == Param(params[i].1, HintFor(true, params[i].1))
    {
      BindsAt("", params, true, i);
      assert "" + params[i].0 == params[i].0;
    }
    forall n | n in BindingMap(Binds("", params, true))
      ensures exists i :: 0 <= i < |params| && n == params[i].0
    {
      BindsOnlyKeys("", params, true, n);
      var i :| 0 <= i < |params| && n == "" + params[i].0;
      assert "" + params[i].0 == params[i].0;
    }
  }

  /** `ksort` entries are among the caller's entries, and vice versa. */
  lemma KSortSameEntries(e: Entries, p: (string, Value))
    ensures p in KSort(e) <==> p in e
  {
    assert p in KSort(e) <==> p in multiset(KSort(e));
  }

  /** For a non-empty insert, the column list and the placeholder list have
      one item per column, in the same order, placeholder i being `:` followed
      by column i; an empty insert degenerates to `() VALUES (:)`. */
  lemma InsertListsMatch(table: string, sorted: Entries)
    ensures |sorted| > 0 ==>
      PlaceholderList(sorted) == Join(", ", PrefixAll(":", Keys(sorted)))
    ensures |sorted| == 0 ==>
      InsertSql(table, sorted) == "INSERT INTO " + table + " () VALUES (:)"
  {
    if |sorted| > 0 {
      JoinPrefixed(":", ", ", Keys(sorted));
      assert ", " + ":" == ", :";
    }
  }

  /** The text and the bindings of an insert do not depend on the order in
      which the caller listed the columns. */
  lemma InsertOrderIndependent(table: string, a: Entries, b: Entries)
    requires DistinctKeys(a) && DistinctKeys(b) && multiset(a) == multiset(b)
    ensures InsertSql(table, KSort(a)) == InsertSql(table, KSort(b))
    ensures Binds(":", KSort(a), false) == Binds(":", KSort(b), false)
  {
    KSortCanonical(a, b);
  }

  /** An insert binds each `:column` exactly once, to the caller's value for
      that column, with the default type. */
  lemma InsertBindsExact(data: Entries)
    requires DistinctKeys(data)
    ensures DistinctNames(Binds(":", KSort(data), false))
    ensures forall i :: 0 <= i < |data| ==>
      ":" + data[i].0 in BindingMap(Binds(":", KSort(data), false)) &&
      BindingMap(Binds(":", KSort(data), false))[":" + data[i].0] == Param(data[i].1, ParamStr)
  {
    var s := KSort(data);
    KSortDistinct(data);
    BindsDistinct(":", s, false);
    forall i | 0 <= i < |data|
      ensures ":" + data[i].0 in BindingMap(Binds(":", s, false))
      ensures BindingMap(Binds(":", s, false))[":" + data[i].0] == Param(data[i].1, ParamStr)
    {
      KSortSameEntries(data, data[i]);
      var k :| 0 <= k < |s| && s[k] == data[i];
      BindsAt(":", s, false, k);
    }
  }

  /** A SET placeholder and a WHERE placeholder never share a name. */
  lemma FieldWhereDisjoint(a: string, b: string)
    ensures ":field_" + a != ":where_" + b
  {
    assert (":field_" + a)[1] == 'f';
    assert (":where_" + b)[1] == 'w';
  }

  /** No placeholder name occurs twice among an update's bindings. */
  lemma UpdateBindsDistinct(sorted: Entries, where: Entries)
    requires DistinctKeys(sorted) && DistinctKeys(where)
    ensures DistinctNames(UpdateBinds(sorted, where))
  {
    var f := Binds(":field_", sorted, false);
    var w := Binds(":where_", where, false);
    BindsDistinct(":field_", sorted, false);
    BindsDistinct(":where_", where, false);
    var all := f + w;
    forall i, j | 0 <= i < j < |all| ensures all[i].name != all[j].name {
      if j < |f| {
        assert all[i] == f[i] && all[j] == f[j];
      } else if i >= |f| {
        assert all[i] == w[i - |f|] && all[j] == w[j - |f|];
      } else {
        assert all[i] == f[i] && all[j] == w[j - |f|];
        FieldWhereDisjoint(sorted[i].0, where[j - |f|].0);
      }
    }
  }

  /** The placeholder map of an update, position by position. */
  lemma UpdateBindsByPosition(sorted: Entries, where: Entries)
    requires DistinctKeys(sorted) && DistinctKeys(where)
    ensures forall k :: 0 <= k < |sorted| ==>
      ":field_" + sorted[k].0 in BindingMap(UpdateBinds(sorted, where)) &&
      BindingMap(UpdateBinds(sorted, where))[":field_" + sorted[k].0] == Param(sorted[k].1, ParamStr)
    ensures forall j :: 0 <= j < |where| ==>
      ":where_" + where[j].0 in BindingMap(UpdateBinds(sorted, where)) &&
      BindingMap(UpdateBinds(sorted, where))[":where_" + where[j].0] == Param(where[j].1, ParamStr)
  {
    var f := Binds(":field_", sorted, false);
    var w := Binds(":where_", where, false);
    var all := f + w;
    UpdateBindsDistinct(sorted, where);
    forall k | 0 <= k < |sorted|
      ensures ":field_" + sorted[k].0 in BindingMap(all)
      ensures BindingMap(all)[":field_" + sorted[k].0] == Param(sorted[k].1, ParamStr)
    {
      assert all[k] == f[k];
      BindingMapAt(all, k);
    }
    forall j | 0 <= j < |where|
      ensures ":where_" + where[j].0 in BindingMap(all)
      ensures BindingMap(all)[":where_" + where[j].0] == Param(where[j].1, ParamStr)
    {
      assert all[|f| + j] == w[j];
      BindingMapAt(all, |f| + j);
    }
  }

  /** An update binds every SET value under `:field_column` and every filter
      value under `:where_column`, each exactly once, so a column that is both
      set and filtered on keeps its new value and its filter value apart. */
  lemma UpdateBindsSeparate(data: Entries, where: Entries)
    requires DistinctKeys(data) && DistinctKeys(where)
    ensures DistinctNames(UpdateBinds(KSort(data), where))
    ensures forall i :: 0 <= i < |data| ==>
      ":field_" + data[i].0 in BindingMap(UpdateBinds(KSort(data), where)) &&
      BindingMap(UpdateBinds(KSort(data), where))[":field_" + data[i].0] == Param(data[i].1, ParamStr)
    ensures forall j :: 0 <= j < |where| ==>
      ":where_" + where[j].0 in BindingMap(UpdateBinds(KSort(data), where)) &&
      BindingMap(UpdateBinds(KSort(data), where))[":where_" + where[j].0] == Param(where[j].1, ParamStr)
  {
    var s := KSort(data);
    KSortDistinct(data);
    UpdateBindsDistinct(s, where);
    UpdateBindsByPosition(s, where);
    forall i | 0 <= i < |data|
      ensures ":field_" + data[i].0 in BindingMap(UpdateBinds(s, where))
      ensures BindingMap(UpdateBinds(s, where))[":field_" + data[i].0] == Param(data[i].1, ParamStr)
    {
      KSortSameEntries(data, data[i]);
      var k :| 0 <= k < |s| && s[k] == data[i];
    }
  }

  /** The column that is both updated and filtered on: `status` set to
      "closed" where `status` is "open". */
  lemma UpdateSameColumnInBoth()
    ensures
      var data := [("status", StrV("closed"))];
      var where := [("status", StrV("open"))];
      var m := BindingMap(UpdateBinds(KSort(data), where));
      ":field_status" in m && ":where_status" in m &&
      m[":field_status"].value == StrV("closed") && m[":where_status"].value == StrV("open")
  {
    var data := [("status", StrV("closed"))];
    var where := [("status", StrV("open"))];
    UpdateBindsSeparate(data, where);
    assert ":field_" + data[0].0 == ":field_status";
    assert ":where_" + where[0].0 == ":where_status";
  }

  /** Once `rtrim` has run the SET clause has no trailing comma: it is the
      assignments joined by `,`, provided the last column name does not
      itself end in a comma. */
  lemma SetClauseJoined(sorted: Entries)
    requires |sorted| > 0
    requires var k := sorted[|sorted| - 1].0; k == [] || k[|k| - 1] != ','
    ensures SetClause(sorted) == Join(",", Equations(":field_", sorted))
  {
    var eqs := Equations(":field_", sorted);
    TerminatedIsJoinThenTerminator(eqs, ",");
    var j := Join(",", eqs);
    JoinEndsWithLast(",", eqs);
    var last := eqs[|eqs| - 1];
    assert last[|last| - 1] != ',';
    assert j[|j| - 1] == last[|last| - 1];
    assert (j + ",")[..|j|] == j;
  }

  /** `ltrim` leaves the WHERE clause alone when the first filter column
      starts with a character other than space, `A`, `N` or `D`. */
  lemma WhereClauseJoined(prefix: string, e: Entries)
    requires |e| > 0 && |e[0].0| > 0 && e[0].0[0] !in WHERE_TRIM
    ensures WhereClause(prefix, e) == Join(" AND ", Equations(prefix, e))
  {
    var eqs := Equations(prefix, e);
    JoinStartsWithFirst(" AND ", eqs);
    assert Join(" AND ", eqs)[0] == eqs[0][0] == e[0].0[0];
  }

  /** `ltrim` skips a leading run of characters from its set. */
  lemma {:induction false} LTrimSkips(lead: string, rest: string, chars: set<char>)
    requires forall i :: 0 <= i < |lead| ==> lead[i] in chars
    ensures LTrim(lead + rest, chars) == LTrim(rest, chars)
  {
    if lead == [] {
      assert lead + rest == rest;
    } else {
      assert (lead + rest)[0] == lead[0];
      assert (lead + rest)[1..] == lead[1..] + rest;
      LTrimSkips(lead[1..], rest, chars);
    }
  }

  /** ... but a sole filter column whose name starts with space, `A`, `N` or
      `D` loses that leading run: the condition starts with what is left. */
  lemma WhereClauseEatsLeadingLetters(prefix: string, lead: string, rest: string, v: Value)
    requires forall i :: 0 <= i < |lead| ==> lead[i] in WHERE_TRIM
    requires |rest| > 0 && rest[0] !in WHERE_TRIM
    ensures WhereClause(prefix, [(lead + rest, v)]) == rest + " = " + prefix + lead + rest
  {
    var e := [(lead + rest, v)];
    assert e[..0] == [];
    assert Equations(prefix, e) == [Equation(prefix, lead + rest)];
    assert Equation(prefix, lead + rest) == lead + (rest + " = " + prefix + lead + rest);
    LTrimSkips(lead, rest + " = " + prefix + lead + rest, WHERE_TRIM);
  }

  /** Filtering on `NAME` yields the condition `ME = :where_NAME`. */
  lemma WhereClauseOnName(v: Value)
    ensures WhereClause(":where_", [("NAME", v)]) == "ME = :where_NAME"
  {
    assert "NA" + "ME" == "NAME";
    WhereClauseEatsLeadingLetters(":where_", "NA", "ME", v);
    assert "ME" + " = " + ":where_" + "NA" + "ME" == "ME = :where_NAME";
  }

  /** The filter of an update is not sorted: its conditions appear in the
      caller's order, so the same filter given in two orders yields two
      different statements. */
  lemma UpdateWhereKeepsCallerOrder(table: string, sorted: Entries, v: Value)
    ensures UpdateSql(table, sorted, [("b", v), ("a", v)]) != UpdateSql(table, sorted, [("a", v), ("b", v)])
  {
    var ba := [("b", v), ("a", v)];
    var ab := [("a", v), ("b", v)];
    WhereClauseJoined(":where_", ba);
    WhereClauseJoined(":where_", ab);
    var head := "UPDATE " + table + " SET " + SetClause(sorted) + " WHERE ";
    var x := Join(" AND ", Equations(":where_", ba));
    var y := Join(" AND ", Equations(":where_", ab));
    JoinStartsWithFirst(" AND ", Equations(":where_", ba));
    JoinStartsWithFirst(" AND ", Equations(":where_", ab));
    assert x[0] == 'b' && y[0] == 'a';
    assert (head + x)[|head|] == x[0];
    assert (head + y)[|head|] == y[0];
  }

  /** Nothing rejects an empty filter: a delete or an update without one
      leaves the WHERE keyword with nothing after it. */
  lemma EmptyFilterAccepted(table: string, sorted: Entries)
    ensures DeleteSql(table, KSort([])) == "DELETE FROM " + table + " WHERE "
    ensures UpdateSql(table, sorted, []) == "UPDATE " + table + " SET " + SetClause(sorted) + " WHERE "
  {
  }

  /** A delete's text and bindings do not depend on the caller's order. */
  lemma DeleteOrderIndependent(table: string, a: Entries, b: Entries)
    requires DistinctKeys(a) && DistinctKeys(b) && multiset(a) == multiset(b)
    ensures DeleteSql(table, KSort(a)) == DeleteSql(table, KSort(b))
    ensures Binds(":", KSort(a), false) == Binds(":", KSort(b), false)
  {
    KSortCanonical(a, b);
  }

  /** A delete binds each `:column` exactly once, to the caller's value. */
  lemma DeleteBindsExact(where: Entries)
    requires DistinctKeys(where)
    ensures DistinctNames(Binds(":", KSort(where), false))
    ensures forall i :: 0 <= i < |where| ==>
      ":" + where[i].0 in BindingMap(Binds(":", KSort(where), false)) &&
      BindingMap(Binds(":", KSort(where), false))[":" + where[i].0] == Param(where[i].1, ParamStr)
  {
    InsertBindsExact(where);
  }
}
