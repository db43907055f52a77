/** The SELECT query builder (select.go): the checks of NewSelect, the
    builder calls Select, Join and Where, and the statement allSelector
    assembles from the model's field list, the requested joins and the WHERE
    operator. Running the statement is outside the model. */
module Selects {
  import opened Base
  import opened Reflect
  import opened FieldLists
  import opened Fields
  import opened Operators

  /** The checks of NewSelect, in their order: a table name for the model,
      then a non-nil pointer, then a slice (or pointer to one) behind it. */
  function SelectCheck(model: ModelRef): (r: Option<Error>)
    ensures r.None? <==> (
      && TableName(model).Ok? && model.Model? && model.ty.Ptr? && !model.isNil
      && Deref(model.ty.elem).Slice?)
    ensures r == Some(InvalidModelType) <==> TableName(model).Err?
    ensures r.Some? ==> r.value in {InvalidModelType, PointerExpected, NilPointer, SliceExpected}
    ensures TableName(model).Ok? && model.Model? ==> (
      && (!model.ty.Ptr? ==> r == Some(PointerExpected))
      && (model.ty.Ptr? && model.isNil ==> r == Some(NilPointer))
      && (model.ty.Ptr? && !model.isNil && !Deref(model.ty.elem).Slice? ==> r == Some(SliceExpected)))
  {
    if model.NilModel? || TableName(model).Err? then Some(InvalidModelType)
    else if !model.ty.Ptr? then Some(PointerExpected)
    else if model.isNil then Some(NilPointer)
    else if !Deref(model.ty.elem).Slice? then Some(SliceExpected)
    else None
  }

  /** The models of the selector test: the untyped nil and a pointer to a
      slice of an anonymous struct have no table; a pointer to a slice of a
      named struct is accepted; the slice itself, or a pointer to one struct,
      is not. */
  lemma SelectCheckExamples(name: string)
    requires name != ""
    ensures SelectCheck(NilModel) == Some(InvalidModelType)
    ensures SelectCheck(Model(Ptr(Slice(Named("", Struct))), false)) == Some(InvalidModelType)
    ensures SelectCheck(Model(Ptr(Slice(Named(name, Struct))), false)) == None
    ensures SelectCheck(Model(Ptr(Slice(Named(name, Struct))), true)) == Some(NilPointer)
    ensures SelectCheck(Model(Slice(Named(name, Struct)), false)) == Some(PointerExpected)
    ensures SelectCheck(Model(Ptr(Named(name, Struct)), false)) == Some(SliceExpected)
  {
    var n, anon := Named(name, Struct), Named("", Struct);
    assert Core(n) == n && Core(anon) == anon;
    assert Core(Slice(n)) == n && Core(Slice(anon)) == anon;
    assert Core(Ptr(Slice(n))) == n && Core(Ptr(Slice(anon))) == anon;
    assert Core(Ptr(n)) == n;
  }

  /** Two WHERE calls in a row: the second combines with the first through And. */
  function Conjoin(previous: Option<Op>, op: Op): Op
  {
    if previous.Some? then And([previous.value, op]) else op
  }

  /** Combining keeps the earlier operator's keys in front of the new one's,
      and the new operator's values override. */
  lemma ConjoinKeysValues(a: Op, b: Op)
    ensures Keys(Conjoin(Some(a), b)) == Keys(a) + Keys(b)
    ensures Values(Conjoin(Some(a), b)) == Values(a) + Values(b)
  {
    SplicedKeys(AndGroup, [a, b]);
    SplicedValues(AndGroup, [a, b]);
    PairKeysValues(a, b);
  }

  lemma PairKeysValues(a: Op, b: Op)
    ensures KeysAll([a, b]) == Keys(a) + Keys(b)
    ensures ValuesAll([a, b]) == Values(a) + Values(b)
  {
    assert [a, b][..1] == [a];
    SingletonKeysValues(a);
  }

  /** A statement and its positional arguments. */
  datatype Statement = Statement(query: string, args: seq<Value>)

  /** The JOIN texts and the select entries of the requested relations. */
  datatype Parts = Parts(joined: seq<string>, selected: seq<string>)

  /** The alias of the idx-th requested join: t2, t3, ... */
  function Alias(idx: nat): string
  {
    "t" + NatToString(idx + 2)
  }

  /** The aliases of different joins never clash. */
  lemma AliasDistinct(i: nat, j: nat)
    requires i != j
    ensures Alias(i) != Alias(j)
  {
    assert Alias(i)[1..] == NatToString(i + 2);
    assert Alias(j)[1..] == NatToString(j + 2);
  }

  /** The callback handleJoins resolves a relation with, given the relation
      and its alias. */
  type Fielder = (string, string) -> Result<Joined>

  /** The callback allSelector hands to handleJoins: RelatedFieldsFor over
      the model's items, with the mapper's field lists for related types. */
  function RelatedFielder(items: seq<Item>, describe: GoType -> seq<FieldInfo>): Fielder
  {
    (relation: string, tableref: string) => Related(items, relation, tableref, describe)
  }

  /** The relation behind the i-th requested join, under that join's alias. */
  function Resolve(joins: seq<string>, fielder: Fielder, i: nat): Result<Joined>
    requires i < |joins|
  {
    fielder(joins[i], Alias(i))
  }

  /** handleJoins: the relations resolved in request order, their JOIN texts
      and select lists concatenated in that order; the first failure ends it. */
  function HandleJoins(joins: seq<string>, fielder: Fielder): Result<Parts>
  {
    if |joins| == 0 then Ok(Parts([], []))
    else
      match HandleJoins(joins[..|joins| - 1], fielder)
      case Err(e) => Err(e)
      case Ok(p) =>
        match fielder(joins[|joins| - 1], Alias(|joins| - 1))
        case Err(e) => Err(e)
        case Ok(j) => Ok(Parts(p.joined + [j.join], p.selected + j.selects))
  }

  /** The select lists of the first n joins, one after the other. */
  function SelectsOf(joins: seq<string>, fielder: Fielder, n: nat): seq<string>
    requires n <= |joins|
    requires forall i :: 0 <= i < n ==> Resolve(joins, fielder, i).Ok?
  {
    if n == 0 then [] else SelectsOf(joins, fielder, n - 1) + Resolve(joins, fielder, n - 1).value.selects
  }

  /** handleJoins succeeds exactly when every requested relation resolves
      under its alias t<i+2>. */
  lemma {:induction false} HandleJoinsOk(joins: seq<string>, fielder: Fielder)
    ensures HandleJoins(joins, fielder).Ok? <==>
      forall i :: 0 <= i < |joins| ==> Resolve(joins, fielder, i).Ok?
  {
    if |joins| > 0 {
      var init := joins[..|joins| - 1];
      var n := |joins| - 1;
      HandleJoinsOk(init, fielder);
      ResolvePrefix(init, joins, fielder);
      assert Resolve(joins, fielder, n) == fielder(joins[n], Alias(n));
      if forall i :: 0 <= i < |joins| ==> Resolve(joins, fielder, i).Ok? {
        assert forall i :: 0 <= i < |init| ==> Resolve(init, fielder, i).Ok?;
      }
    }
  }

  /** When handleJoins succeeds, the i-th JOIN text is the i-th relation's,
      and the select entries are the relations' lists in request order. */
  lemma {:induction false} HandleJoinsSpec(joins: seq<string>, fielder: Fielder)
    requires HandleJoins(joins, fielder).Ok?
    ensures forall i :: 0 <= i < |joins| ==> Resolve(joins, fielder, i).Ok?
    ensures var p := HandleJoins(joins, fielder).value;
      && |p.joined| == |joins|
      && (forall i :: 0 <= i < |joins| ==> p.joined[i] == Resolve(joins, fielder, i).value.join)
      && p.selected == SelectsOf(joins, fielder, |joins|)
  {
    HandleJoinsOk(joins, fielder);
    if |joins| > 0 {
      var init := joins[..|joins| - 1];
      var n := |joins| - 1;
      HandleJoinsSpec(init, fielder);
      ResolvePrefix(init, joins, fielder);
      SelectsOfPrefix(init, joins, fielder, n);
    }
  }

  /** When handleJoins fails, its error is the first failing relation's. */
  lemma {:induction false} HandleJoinsFirstError(joins: seq<string>, fielder: Fielder)
    requires HandleJoins(joins, fielder).Err?
    ensures exists i :: (
      && 0 <= i < |joins| && Resolve(joins, fielder, i).Err?
      && (forall k :: 0 <= k < i ==> Resolve(joins, fielder, k).Ok?)
      && HandleJoins(joins, fielder).error == Resolve(joins, fielder, i).error)
  {
    var init := joins[..|joins| - 1];
    var n := |joins| - 1;
    ResolvePrefix(init, joins, fielder);
    if HandleJoins(init, fielder).Err? {
      HandleJoinsFirstError(init, fielder);
      var i :| (
        && 0 <= i < |init| && Resolve(init, fielder, i).Err?
        && (forall k :: 0 <= k < i ==> Resolve(init, fielder, k).Ok?)
        && HandleJoins(init, fielder).error == Resolve(init, fielder, i).error);
      assert Resolve(joins, fielder, i).Err?;
    } else {
      HandleJoinsOk(init, fielder);
      assert Resolve(joins, fielder, n).Err?;
    }
  }

  lemma ResolvePrefix(init: seq<string>, joins: seq<string>, fielder: Fielder)
    requires |init| <= |joins| && init == joins[..|init|]
    ensures forall i :: 0 <= i < |init| ==> Resolve(init, fielder, i) == Resolve(joins, fielder, i)
  {
  }

  lemma {:induction false} SelectsOfPrefix(init: seq<string>, joins: seq<string>, fielder: Fielder, n: nat)
    requires n <= |init| <= |joins| && init == joins[..|init|]
    requires forall i :: 0 <= i < n ==> Resolve(init, fielder, i).Ok?
    ensures forall i :: 0 <= i < n ==> Resolve(joins, fielder, i).Ok?
    ensures SelectsOf(init, fielder, n) == SelectsOf(joins, fielder, n)
  {
    assert forall i :: 0 <= i < n ==> Resolve(init, fielder, i) == Resolve(joins, fielder, i);
    if n > 0 {
      SelectsOfPrefix(init, joins, fielder, n - 1);
    }
  }

  /** The default projection: t1.<key> for every query field, in order. */
  function DefaultSelects(fields: seq<QueryField>): (r: seq<string>)
    ensures |r| == |fields|
  {
    seq(|fields|, k requires 0 <= k < |fields| => "t1." + fields[k].key)
  }

  /** The default projection names exactly the model's plain columns, in
      field order. */
  lemma DefaultSelectsAreColumns(items: seq<Item>)
    ensures var cols := Filter(items, IsColumn);
      && |DefaultSelects(QueryFields(items))| == |cols|
      && forall k :: 0 <= k < |cols| ==> DefaultSelects(QueryFields(items))[k] == "t1." + cols[k].path
  {
    QueryFieldsAreColumns(items);
  }

  /** The WHERE clause: nothing without an operator. */
  function WhereClause(where: Option<Op>): string
  {
    if where.None? then "" else " WHERE " + Where(where.value, true)
  }

  /** The positional arguments: the operator's value for each of its keys, in
      key order; a key without a value gives nil, as a Go map lookup does. */
  function Args(where: Option<Op>): (r: seq<Value>)
    ensures where.None? ==> r == []
    ensures where.Some? ==> |r| == |Keys(where.value)|
  {
    if where.None? then []
    else
      var keys, vals := Keys(where.value), Values(where.value);
      seq(|keys|, i requires 0 <= i < |keys| => if keys[i] in vals then vals[keys[i]] else Nil)
  }

  /** Every key of an operator has a value, so each argument is the value
      the operator binds to that key. */
  lemma ArgsAreValues(op: Op)
    ensures var keys := Keys(op);
      forall i :: 0 <= i < |keys| ==> keys[i] in Values(op) && Args(Some(op))[i] == Values(op)[keys[i]]
  {
    ValuesCoverKeys(op);
  }

  /** The statement text allSelector prints. */
  function SelectText(parts: Parts, where: Option<Op>): string
  {
    "SELECT " + Join(parts.selected, ", ") + " FROM " + Join(parts.joined, " LEFT JOIN ") + WhereClause(where)
  }

  /** The projection and the FROM list: an explicit Select list verbatim and
      no joins; otherwise the default projection, followed by the joins. */
  function Projection(table: string, sel: seq<string>, incl: seq<string>, items: seq<Item>,
                      describe: GoType -> seq<FieldInfo>): Result<Parts>
  {
    var head := [table + " t1"];
    if |sel| >= 1 then Ok(Parts(head, sel))
    else
      var defaults := DefaultSelects(QueryFields(items));
      if |incl| == 0 then Ok(Parts(head, defaults))
      else
        match HandleJoins(incl, RelatedFielder(items, describe))
        case Err(e) => Err(e)
        case Ok(j) => Ok(Parts(head + j.joined, defaults + j.selected))
  }

  /** allSelector: the SELECT statement and its arguments, or the first error. */
  function Selector(model: ModelRef, sel: seq<string>, incl: seq<string>, where: Option<Op>,
                    fields: seq<FieldInfo>, describe: GoType -> seq<FieldInfo>): Result<Statement>
  {
    var table := TableName(model);
    if table.Err? then Err(table.error)
    else
      match Projection(table.value, sel, incl, Items(fields), describe)
      case Err(e) => Err(e)
      case Ok(parts) => Ok(Statement(SelectText(parts, where), Args(where)))
  }

  /** What allSelector promises: it fails only for a model without a table
      or a join that does not resolve; an explicit Select list is used as
      given and suppresses every join; the FROM list starts with the model's
      table as t1; the arguments follow the operator's keys, and there are
      none without a WHERE. */
  lemma SelectorSpec(model: ModelRef, sel: seq<string>, incl: seq<string>, where: Option<Op>,
                     fields: seq<FieldInfo>, describe: GoType -> seq<FieldInfo>)
    ensures var r := Selector(model, sel, incl, where, fields, describe);
      r.Err? <==> (
        || TableName(model).Err?
        || (|sel| == 0 && |incl| > 0 && HandleJoins(incl, RelatedFielder(Items(fields), describe)).Err?))
    ensures var r := Selector(model, sel, incl, where, fields, describe);
      r.Ok? && |sel| >= 1 ==>
        r.value.query == "SELECT " + Join(sel, ", ") + " FROM " + TableName(model).value + " t1" + WhereClause(where)
    ensures var r := Selector(model, sel, incl, where, fields, describe);
      r.Ok? ==> (TableName(model).Ok? &&
      var p := Projection(TableName(model).value, sel, incl, Items(fields), describe);
        && p.Ok? && |p.value.joined| >= 1 && p.value.joined[0] == TableName(model).value + " t1"
        && (|sel| >= 1 || |incl| == 0 ==> |p.value.joined| == 1)
        && (|sel| == 0 ==> p.value.selected[..|QueryFields(Items(fields))|] == DefaultSelects(QueryFields(Items(fields)))))
    ensures var r := Selector(model, sel, incl, where, fields, describe);
      r.Ok? ==> r.value.args == Args(where) && (where.None? ==> r.value.args == [])
  {
    var r := Selector(model, sel, incl, where, fields, describe);
    if r.Ok? {
      var table := TableName(model).value;
      var p := Projection(table, sel, incl, Items(fields), describe);
      if |sel| == 0 && |incl| > 0 {
        var j := HandleJoins(incl, RelatedFielder(Items(fields), describe)).value;
        var defaults := DefaultSelects(QueryFields(Items(fields)));
        assert (defaults + j.selected)[..|defaults|] == defaults;
      } else if |sel| == 0 {
        var defaults := DefaultSelects(QueryFields(Items(fields)));
        assert defaults[..|defaults|] == defaults;
      }
    }
  }

  /** Without a Select list the statement selects the default projection
      followed by the joined relations' selects, from the model's table as t1
      LEFT JOINed with each relation in request order; without joins both
      additions are empty. */
  lemma SelectorDefault(model: ModelRef, incl: seq<string>, where: Option<Op>,
                        fields: seq<FieldInfo>, describe: GoType -> seq<FieldInfo>)
    ensures var r := Selector(model, [], incl, where, fields, describe);
      r.Ok? ==> (
        var j := HandleJoins(incl, RelatedFielder(Items(fields), describe));
        && j.Ok?
        && r.value.query ==
          "SELECT " + Join(DefaultSelects(QueryFields(Items(fields))) + j.value.selected, ", ") +
          " FROM " + Join([TableName(model).value + " t1"] + j.value.joined, " LEFT JOIN ") + WhereClause(where))
  {
    var defaults := DefaultSelects(QueryFields(Items(fields)));
    assert defaults + [] == defaults;
    assert forall t: string :: [t] + [] == [t];
  }

  /** The "get selected fields" case of the selector test: Select("id",
      "extras") gives `SELECT id, extras FROM <table> t1` and no arguments,
      whatever joins were requested. */
  lemma SelectedFieldsExample(table: string, incl: seq<string>, items: seq<Item>,
                              describe: GoType -> seq<FieldInfo>)
    ensures var p := Projection(table, ["id", "extras"], incl, items, describe);
      p.Ok? && SelectText(p.value, None) == "SELECT id, extras FROM " + table + " t1"
  {
    var sel := ["id", "extras"];
    assert sel[..1] == ["id"];
    assert Join(sel, ", ") == "id, extras";
    assert Join([table + " t1"], " LEFT JOIN ") == table + " t1";
  }

  /** The "filter query" case of the selector test: Where(Eq("id", 3)) then
      Where(Eq("extras", nil)) render `WHERE id = :id AND extras IS NULL`
      with the arguments 3 and nil. */
  lemma FilterQueryWhere()
    ensures var op := Conjoin(Some(Conjoin(None, Eq("id", IntV(3)))), Eq("extras", Nil));
      && WhereClause(Some(op)) == " WHERE " + "id = :id AND extras IS NULL"
      && Args(Some(op)) == [IntV(3), Nil]
  {
    var a, b := Equal("id", IntV(3)), IsNull("extras", true);
    FilterQueryConjoin();
    FilterQueryShape(a, b);
    FilterQueryText(a, b);
    WhereClauseOf(Group(AndGroup, [a, b]), "id = :id AND extras IS NULL");
    FilterQueryArgs(Group(AndGroup, [a, b]), a, b);
  }

  lemma WhereClauseOf(op: Op, w: string)
    requires Where(op, true) == w
    ensures WhereClause(Some(op)) == " WHERE " + w
  {
  }

  lemma FilterQueryConjoin()
    ensures Conjoin(Some(Conjoin(None, Eq("id", IntV(3)))), Eq("extras", Nil)) == And([Eq("id", IntV(3)), Eq("extras", Nil)])
  {
  }

  lemma FilterQueryArgs(g: Op, a: Op, b: Op)
    requires a == Equal("id", IntV(3)) && b == IsNull("extras", true) && g == Group(AndGroup, [a, b])
    ensures Args(Some(g)) == [IntV(3), Nil]
  {
    FilterQueryKeys(a, b);
    ArgsFrom(g, ["id", "extras"], map["id" := IntV(3), "extras" := Nil]);
  }

  lemma ArgsFrom(op: Op, keys: seq<string>, vals: map<string, Value>)
    requires Keys(op) == keys && Values(op) == vals
    requires keys == ["id", "extras"] && vals == map["id" := IntV(3), "extras" := Nil]
    ensures Args(Some(op)) == [IntV(3), Nil]
  {
    ArgsAreValues(op);
  }

  /** The builder of a SELECT query over a slice-of-models destination. */
  class SelectQuery {
    const model: ModelRef
    var sel: seq<string>
    var incl: seq<string>
    var where: Option<Op>

    constructor (model: ModelRef)
      ensures this.model == model && sel == [] && incl == [] && where == None
    {
      this.model := model;
      sel := [];
      incl := [];
      where := None;
    }

    /** Select: the selectors are appended to the ones already requested. */
    method Select(selectors: seq<string>)
      modifies this
      ensures sel == old(sel) + selectors
      ensures incl == old(incl) && where == old(where)
    {
      if |sel| < 1 {
        sel := [];
      }
      sel := sel + selectors;
    }

    /** Join: the relations are appended to the ones already requested. */
    method Join(selectors: seq<string>)
      modifies this
      ensures incl == old(incl) + selectors
      ensures sel == old(sel) && where == old(where)
    {
      if |incl| < 1 {
        incl := [];
      }
      incl := incl + selectors;
    }

    /** Where: the first operator is kept as it is; each later one is
      combined with the ones before through And. */
    method Where(op: Op)
      modifies this
      ensures where == Some(Conjoin(old(where), op))
      ensures sel == old(sel) && incl == old(incl)
    {
      if where.Some? {
        where := Some(And([where.value, op]));
      } else {
        where := Some(op);
      }
    }

    /** allSelector, given the model type's field descriptors and the mapper
        callback for related types. */
    method AllSelector(fields: seq<FieldInfo>, describe: GoType -> seq<FieldInfo>) returns (r: Result<Statement>)
      ensures r == Selector(model, sel, incl, where, fields, describe)
    {
      var table := TableName(model);
      if table.Err? {
        return Err(table.error);
      }
      var fl := new FieldList(fields);
      var items := fl.Itemize();
      var selected: seq<string>;
      var joined := [table.value + " t1"];
      if |sel| >= 1 {
        selected := sel;
      } else {
        var qf := FieldsFor(items);
        var qfs := qf.value;
        selected := [];
        var i := 0;
        while i < |qfs|
          invariant 0 <= i <= |qfs|
          invariant selected == DefaultSelects(qfs[..i])
        {
          selected := selected + ["t1." + qfs[i].key];
          i := i + 1;
        }
        assert qfs[..|qfs|] == qfs;
        if |incl| > 0 {
          var j := RunJoins(incl, RelatedFielder(items, describe));
          if j.Err? {
            return Err(j.error);
          }
          joined := joined + j.value.joined;
          selected := selected + j.value.selected;
        }
      }
      var args := ArgList(where);
      return Ok(Statement(SelectText(Parts(joined, selected), where), args));
    }
  }

  /** The argument loop of allSelector. */
  method ArgList(where: Option<Op>) returns (args: seq<Value>)
    ensures args == Args(where)
  {
    args := [];
    if where.Some? {
      var values := Values(where.value);
      var keys := Keys(where.value);
      var i := 0;
      while i < |keys|
        invariant 0 <= i <= |keys|
        invariant args == Args(where)[..i]
      {
        args := args + [if keys[i] in values then values[keys[i]] else Nil];
        i := i + 1;
      }
    }
  }

  /** handleJoins: the loop over the requested relations. */
  method RunJoins(joins: seq<string>, fielder: Fielder) returns (r: Result<Parts>)
    ensures r == HandleJoins(joins, fielder)
  {
    var joined: seq<string> := [];
    var selected: seq<string> := [];
    var idx := 0;
    while idx < |joins|
      invariant 0 <= idx <= |joins|
      invariant HandleJoins(joins[..idx], fielder) == Ok(Parts(joined, selected))
    {
      assert joins[..idx + 1][..idx] == joins[..idx];
      var tableref := "t" + NatToString(idx + 2);
      var j := fielder(joins[idx], tableref);
      if j.Err? {
        HandleJoinsErrSticky(joins, fielder, idx + 1);
        return Err(j.error);
      }
      joined := joined + [j.value.join];
      selected := selected + j.value.selects;
      idx := idx + 1;
    }
    assert joins[..|joins|] == joins;
    return Ok(Parts(joined, selected));
  }

  lemma {:induction false} HandleJoinsErrSticky(joins: seq<string>, fielder: Fielder, n: nat)
    requires n <= |joins| && HandleJoins(joins[..n], fielder).Err?
    ensures HandleJoins(joins, fielder) == HandleJoins(joins[..n], fielder)
    decreases |joins| - n
  {
    if n < |joins| {
      assert joins[..n + 1][..n] == joins[..n];
      HandleJoinsErrSticky(joins, fielder, n + 1);
    } else {
      assert joins[..n] == joins;
    }
  }

  /** NewSelect: a query over the model, or the first check it fails. */
  method NewSelect(model: ModelRef) returns (r: Result<SelectQuery>)
    ensures r.Err? <==> SelectCheck(model).Some?
    ensures r.Err? ==> r.error == SelectCheck(model).value
    ensures r.Ok? ==> (
      && fresh(r.value) && r.value.model == model
      && r.value.sel == [] && r.value.incl == [] && r.value.where == None)
  {
    var table := TableName(model);
    if table.Err? {
      return Err(table.error);
    }
    if !model.ty.Ptr? {
      return Err(PointerExpected);
    }
    if model.isNil {
      return Err(NilPointer);
    }
    var t := Deref(model.ty.elem);
    if !t.Slice? {
      return Err(SliceExpected);
    }
    var q := new SelectQuery(model);
    return Ok(q);
  }
}
