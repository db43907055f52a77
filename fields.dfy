/** Query fields and relation joins (fields.go): the columns of a model, and
    the JOIN text and aliased select list of a belongs-to or has-N relation. */
module Fields {
  import opened Base
  import opened Reflect
  import opened FieldLists

  /** FieldsFor keeps an item when it is no sub-field of a belongs-to struct
      and QField gives it a query field. */
  predicate IsColumn(it: Item)
  {
    OptRelatedTo !in it.options && QField(it).Some?
  }

  /** The query fields FieldsFor returns, in item order. */
  function QueryFields(items: seq<Item>): seq<QueryField>
  {
    if |items| == 0 then []
    else
      var it := items[|items| - 1];
      QueryFields(items[..|items| - 1]) + (if IsColumn(it) then [QField(it).value] else [])
  }

  /** FieldsFor: the loop over the items. It never fails. */
  method FieldsFor(items: seq<Item>) returns (r: Result<seq<QueryField>>)
    ensures r == Ok(QueryFields(items))
  {
    var queryFields: seq<QueryField> := [];
    var i := 0;
    while i < |items|
      invariant 0 <= i <= |items|
      invariant queryFields == QueryFields(items[..i])
    {
      var it := items[i];
      assert items[..i + 1][..i] == items[..i];
      if OptRelatedTo in it.options {
        i := i + 1;
        continue;
      }
      var field := QField(it);
      if field.Some? {
        queryFields := queryFields + [field.value];
      }
      i := i + 1;
    }
    assert items[..|items|] == items;
    return Ok(queryFields);
  }

  /** FieldsFor drops every item tagged `_related_to_`, `relation` or
      `belongs`, keeps all others in their order, and turns each survivor
      into its `key`, `:key` and `key=:key` fragments. */
  lemma {:induction false} QueryFieldsAreColumns(items: seq<Item>)
    ensures forall it :: IsColumn(it) <==>
      OptRelatedTo !in it.options && OptRelation !in it.options && OptBelongs !in it.options
    ensures var cols := Filter(items, IsColumn);
      && |QueryFields(items)| == |cols|
      && forall k :: 0 <= k < |cols| ==>
           QueryFields(items)[k] == QueryField(cols[k].path, ":" + cols[k].path,
             cols[k].path + "=:" + cols[k].path, cols[k].options)
  {
    if |items| > 0 {
      var init := items[..|items| - 1];
      QueryFieldsAreColumns(init);
      var it := items[|items| - 1];
      if IsColumn(it) {
        var q := QField(it).value;
        assert q == QueryField(it.path, ":" + it.path, it.path + "=:" + it.path, it.options);
      }
    }
  }

  /** The result of a relation's join builder: the JOIN text and the select list. */
  datatype Joined = Joined(join: string, selects: seq<string>)

  /** One select of a related table: `<ref>.<col> AS <rel>_<col>`. */
  function Aliased(tableref: string, relation: string, col: string): string
  {
    tableref + "." + col + " AS " + relation + "_" + col
  }

  /** The JOIN text of a belongs-to relation. */
  function BelongsJoin(tablename: string, tableref: string, relation: string): string
  {
    tablename + " " + tableref + " ON (t1." + relation + "_id=" + tableref + ".id)"
  }

  /** An item BelongsToFieldsFor selects: tagged as a sub-field of the
      relation, and no relation marker itself. */
  predicate SelectedFor(relation: string, it: Item)
  {
    && OptRelation !in it.options
    && OptBelongs !in it.options
    && OptRelatedTo in it.options
    && it.options[OptRelatedTo] == relation
  }

  /** The select list of BelongsToFieldsFor; slicing off `<rel>.` from a path
      shorter than that panics. */
  function BelongsSelects(items: seq<Item>, relation: string, tableref: string): Result<seq<string>>
  {
    if |items| == 0 then Ok([])
    else
      var prev := BelongsSelects(items[..|items| - 1], relation, tableref);
      var it := items[|items| - 1];
      if prev.Err? || !SelectedFor(relation, it) then prev
      else if |it.path| < |relation| + 1 then Err(Panic)
      else Ok(prev.value + [Aliased(tableref, relation, it.path[|relation| + 1..])])
  }

  /** BelongsToFieldsFor: the fixed JOIN text and the loop over the items. */
  method BelongsToFieldsFor(items: seq<Item>, relation: string, tableref: string, tablename: string)
    returns (r: Result<Joined>)
    ensures var s := BelongsSelects(items, relation, tableref);
      r == if s.Err? then Err(s.error) else Ok(Joined(BelongsJoin(tablename, tableref, relation), s.value))
  {
    var joined := tablename + " " + tableref + " ON (t1." + relation + "_id=" + tableref + ".id)";
    var selected: seq<string> := [];
    var rel := |relation| + 1;
    var i := 0;
    while i < |items|
      invariant 0 <= i <= |items|
      invariant BelongsSelects(items[..i], relation, tableref) == Ok(selected)
    {
      var it := items[i];
      assert items[..i + 1][..i] == items[..i];
      if OptRelation in it.options || OptBelongs in it.options {
        i := i + 1;
        continue;
      }
      if OptRelatedTo in it.options && relation == it.options[OptRelatedTo] {
        if |it.path| < rel {
          assert BelongsSelects(items[..i + 1], relation, tableref) == Err(Panic);
          BelongsSelectsErrSticky(items, relation, tableref, i + 1);
          assert items[..|items|] == items;
          return Err(Panic);
        }
        var name := it.path[rel..];
        selected := selected + [tableref + "." + name + " AS " + relation + "_" + name];
      }
      i := i + 1;
    }
    assert items[..|items|] == items;
    return Ok(Joined(joined, selected));
  }

  /** Once the select list has failed, later items do not change the failure. */
  lemma {:induction false} BelongsSelectsErrSticky(items: seq<Item>, relation: string, tableref: string, n: nat)
    requires n <= |items| && BelongsSelects(items[..n], relation, tableref).Err?
    ensures BelongsSelects(items, relation, tableref) == BelongsSelects(items[..n], relation, tableref)
    decreases |items| - n
  {
    if n < |items| {
      assert items[..n + 1][..n] == items[..n];
      BelongsSelectsErrSticky(items, relation, tableref, n + 1);
    } else {
      assert items[..n] == items;
    }
  }

  /** BelongsToFieldsFor succeeds exactly when every selected sub-field's path
      is longer than the relation name; then it selects
      `<ref>.<sub> AS <rel>_<sub>` for each such field in order, where <sub> is
      its path without the `<rel>.` prefix, and nothing else. Otherwise it panics. */
  lemma {:induction false} BelongsSelectsSpec(items: seq<Item>, relation: string, tableref: string)
    ensures var r := BelongsSelects(items, relation, tableref);
      r.Ok? <==> forall k :: 0 <= k < |items| && SelectedFor(relation, items[k]) ==> |items[k].path| > |relation|
    ensures var r := BelongsSelects(items, relation, tableref);
      var picked := Filter(items, it => SelectedFor(relation, it));
      r.Ok? ==> |r.value| == |picked| && forall k :: 0 <= k < |picked| ==>
        |picked[k].path| > |relation| &&
        r.value[k] == Aliased(tableref, relation, picked[k].path[|relation| + 1..])
    ensures BelongsSelects(items, relation, tableref).Err? ==> BelongsSelects(items, relation, tableref).error == Panic
  {
    if |items| > 0 {
      var init := items[..|items| - 1];
      BelongsSelectsSpec(init, relation, tableref);
      assert forall k :: 0 <= k < |init| ==> init[k] == items[k];
      var p: Item -> bool := it => SelectedFor(relation, it);
      assert Filter(items, p) == Filter(init, p) + (if p(items[|items| - 1]) then [items[|items| - 1]] else []);
    }
  }

  /** One more item extends the select list by at most that item's select. */
  lemma BelongsSelectsSnoc(items: seq<Item>, it: Item, relation: string, tableref: string)
    ensures var prev := BelongsSelects(items, relation, tableref);
      BelongsSelects(items + [it], relation, tableref) ==
        if prev.Err? || !SelectedFor(relation, it) then prev
        else if |it.path| < |relation| + 1 then Err(Panic)
        else Ok(prev.value + [Aliased(tableref, relation, it.path[|relation| + 1..])])
  {
    assert (items + [it])[..|items|] == items;
  }

  /** The first three fields of the selector test's model select only `sub.id`. */
  lemma BelongsToExampleStart(t: GoType)
    ensures BelongsSelects([Item("id", map[], t), Item("sub", map[OptBelongs := ""], t),
      Item("sub.id", map[OptRelatedTo := "sub"], t)], "sub", "t2") == Ok(["t2.id AS sub_id"])
  {
    var top := Item("id", map[], t);
    var sub := Item("sub", map[OptBelongs := ""], t);
    var subId := Item("sub.id", map[OptRelatedTo := "sub"], t);
    assert !SelectedFor("sub", top);
    BelongsSelectsSnoc([], top, "sub", "t2");
    assert !SelectedFor("sub", sub) by { assert OptRelatedTo != OptBelongs; }
    BelongsSelectsSnoc([top], sub, "sub", "t2");
    assert [top] + [sub] == [top, sub];
    var none: seq<string> := [];
    assert BelongsSelects([top, sub], "sub", "t2") == Ok(none);
    assert SelectedFor("sub", subId) by {
      assert OptRelation != OptRelatedTo && OptBelongs != OptRelatedTo;
    }
    assert subId.path[4..] == "id";
    assert Aliased("t2", "sub", "id") == "t2.id AS sub_id";
    assert none + ["t2.id AS sub_id"] == ["t2.id AS sub_id"];
    BelongsSelectsSnoc([top, sub], subId, "sub", "t2");
    assert [top, sub] + [subId] == [top, sub, subId];
  }

  /** The belongs-to case of the selector test: the `sub` relation of a model
      whose `sub` struct holds `id`, `name` and a has-one marker `sel`. */
  lemma BelongsToExample(t: GoType)
    ensures var items := [
        Item("id", map[], t),
        Item("sub", map[OptBelongs := ""], t),
        Item("sub.id", map[OptRelatedTo := "sub"], t),
        Item("sub.name", map[OptRelatedTo := "sub"], t),
        Item("sub.sel", map[OptRelation := "sel", OptRelatedTo := "sub"], t)];
      BelongsSelects(items, "sub", "t2") == Ok(["t2.id AS sub_id", "t2.name AS sub_name"])
  {
    var start := [Item("id", map[], t), Item("sub", map[OptBelongs := ""], t),
      Item("sub.id", map[OptRelatedTo := "sub"], t)];
    var subName := Item("sub.name", map[OptRelatedTo := "sub"], t);
    var subSel := Item("sub.sel", map[OptRelation := "sel", OptRelatedTo := "sub"], t);
    BelongsToExampleStart(t);
    assert SelectedFor("sub", subName) by {
      assert OptRelation != OptRelatedTo && OptBelongs != OptRelatedTo;
    }
    assert subName.path[4..] == "name";
    assert Aliased("t2", "sub", "name") == "t2.name AS sub_name";
    assert ["t2.id AS sub_id"] + ["t2.name AS sub_name"] == ["t2.id AS sub_id", "t2.name AS sub_name"];
    BelongsSelectsSnoc(start, subName, "sub", "t2");
    assert !SelectedFor("sub", subSel);
    BelongsSelectsSnoc(start + [subName], subSel, "sub", "t2");
    assert start + [subName] + [subSel] == [start[0], start[1], start[2], subName, subSel];
  }

  /** The JOIN text of a has-one or has-many relation. */
  function HasNJoin(tablename: string, tableref: string, relindex: string): string
  {
    tablename + " " + tableref + " ON (t1.id=" + tableref + "." + relindex + "_id)"
  }

  /** The related type of a has-N field: one pointer layer removed, then one slice layer. */
  function RelatedType(t: GoType): GoType
  {
    var d := Deref(t);
    if d.Slice? then d.elem else d
  }

  /** The select list of HasNFieldsFor: every query field of the related type, aliased. */
  function HasNSelects(fields: seq<QueryField>, relation: string, tableref: string): (r: seq<string>)
    ensures |r| == |fields|
  {
    seq(|fields|, k requires 0 <= k < |fields| => Aliased(tableref, relation, fields[k].key))
  }

  /** What HasNFieldsFor returns; `describe` stands for the type-mapper callback. */
  function HasN(relation: string, tableref: string, relindex: string, t: GoType,
                describe: GoType -> seq<FieldInfo>): Result<Joined>
  {
    var rt := RelatedType(t);
    var tn := TableNameByType(rt);
    if tn.Err? then Err(tn.error)
    else Ok(Joined(HasNJoin(tn.value, tableref, relindex),
                   HasNSelects(QueryFields(Items(describe(rt))), relation, tableref)))
  }

  /** HasNFieldsFor: resolves the related type, itemizes its field list and
      aliases each of its query fields. */
  method HasNFieldsFor(relation: string, tableref: string, relindex: string, t: GoType,
                       describe: GoType -> seq<FieldInfo>) returns (r: Result<Joined>)
    ensures r == HasN(relation, tableref, relindex, t, describe)
  {
    var rt := Deref(t);
    if rt.Slice? {
      rt := rt.elem;
    }
    var tablename := TableNameByType(rt);
    if tablename.Err? {
      return Err(tablename.error);
    }
    var joined := tablename.value + " " + tableref + " ON (t1.id=" + tableref + "." + relindex + "_id)";
    var fl := new FieldList(describe(rt));
    var items := fl.Itemize();
    var fields := FieldsFor(items);
    var qf := fields.value;
    var selected: seq<string> := [];
    var i := 0;
    while i < |qf|
      invariant 0 <= i <= |qf|
      invariant selected == HasNSelects(qf[..i], relation, tableref)
    {
      selected := selected + [tableref + "." + qf[i].key + " AS " + relation + "_" + qf[i].key];
      i := i + 1;
    }
    assert qf[..|qf|] == qf;
    return Ok(Joined(joined, selected));
  }

  /** HasNFieldsFor fails only when the related type has no table name; it
      then gives that error. Otherwise it selects exactly one
      `<ref>.<key> AS <rel>_<key>` per plain field of the related type, in order. */
  lemma HasNSpec(relation: string, tableref: string, relindex: string, t: GoType,
                 describe: GoType -> seq<FieldInfo>)
    ensures var r := HasN(relation, tableref, relindex, t, describe);
      r.Err? <==> TableNameByType(RelatedType(t)).Err?
    ensures var r := HasN(relation, tableref, relindex, t, describe);
      r.Err? ==> r.error == InvalidModelType
    ensures var r := HasN(relation, tableref, relindex, t, describe);
      var cols := Filter(Items(describe(RelatedType(t))), IsColumn);
      r.Ok? ==> |r.value.selects| == |cols| && forall k :: 0 <= k < |cols| ==>
        r.value.selects[k] == Aliased(tableref, relation, cols[k].path)
  {
    QueryFieldsAreColumns(Items(describe(RelatedType(t))));
  }

  /** The first item with the given path. */
  function FirstItem(items: seq<Item>, name: string): (r: Option<Item>)
    ensures r.None? <==> forall k :: 0 <= k < |items| ==> items[k].path != name
    ensures r.Some? ==> r.value.path == name && r.value in items
    ensures r.Some? ==> exists k :: (0 <= k < |items| && items[k] == r.value &&
      forall k' :: 0 <= k' < k ==> items[k'].path != name)
  {
    if |items| == 0 then None
    else if items[0].path == name then Some(items[0])
    else
      var r := FirstItem(items[1..], name);
      assert forall k :: 1 <= k < |items| ==> items[k] == items[1..][k - 1];
      r
  }

  /** What RelatedFieldsFor returns. */
  function Related(items: seq<Item>, relation: string, tableref: string,
                   describe: GoType -> seq<FieldInfo>): Result<Joined>
  {
    var f := FirstItem(items, relation);
    if f.None? then Err(RelationNotFound(relation))
    else if OptRelation in f.value.options then
      HasN(relation, tableref, f.value.options[OptRelation], f.value.ty, describe)
    else
      var tn := TableNameByType(f.value.ty);
      if tn.Err? then Err(tn.error)
      else
        var s := BelongsSelects(items, relation, tableref);
        if s.Err? then Err(s.error) else Ok(Joined(BelongsJoin(tn.value, tableref, relation), s.value))
  }

  /** RelatedFieldsFor: dispatches on the first item named after the relation. */
  method RelatedFieldsFor(items: seq<Item>, relation: string, tableref: string,
                          describe: GoType -> seq<FieldInfo>) returns (r: Result<Joined>)
    ensures r == Related(items, relation, tableref, describe)
  {
    var i := 0;
    while i < |items|
      invariant 0 <= i <= |items|
      invariant FirstItem(items, relation) == FirstItem(items[i..], relation)
    {
      var field := items[i];
      if field.path == relation {
        if OptRelation in field.options {
          r := HasNFieldsFor(relation, tableref, field.options[OptRelation], field.ty, describe);
          return;
        }
        var tablename := TableNameByType(field.ty);
        if tablename.Err? {
          return Err(tablename.error);
        }
        r := BelongsToFieldsFor(items, relation, tableref, tablename.value);
        return;
      }
      assert items[i..][1..] == items[i + 1..];
      i := i + 1;
    }
    return Err(RelationNotFound(relation));
  }

  /** RelatedFieldsFor fails with "Relation %q not found" exactly when no item
      carries the relation's name; a has-N relation is chosen by the
      `relation` option of that first item. */
  lemma RelatedDispatch(items: seq<Item>, relation: string, tableref: string,
                        describe: GoType -> seq<FieldInfo>)
    ensures Related(items, relation, tableref, describe) == Err(RelationNotFound(relation)) <==>
      forall k :: 0 <= k < |items| ==> items[k].path != relation
    ensures var f := FirstItem(items, relation);
      f.Some? && OptRelation in f.value.options ==>
        Related(items, relation, tableref, describe) ==
          HasN(relation, tableref, f.value.options[OptRelation], f.value.ty, describe)
    ensures var f := FirstItem(items, relation);
      var r := Related(items, relation, tableref, describe);
      f.Some? && OptRelation !in f.value.options ==>
        var tn := TableNameByType(f.value.ty);
        (tn.Err? ==> r == Err(tn.error)) &&
        (tn.Ok? ==>
          (r.Ok? <==> forall k :: 0 <= k < |items| && SelectedFor(relation, items[k]) ==> |items[k].path| > |relation|) &&
          (r.Err? ==> r.error == Panic) &&
          (r.Ok? ==> (r.value.join == tn.value + " " + tableref + " ON (t1." + relation + "_id=" + tableref + ".id)" &&
             r.value.selects == BelongsSelects(items, relation, tableref).value)))
  {
    var f := FirstItem(items, relation);
    if f.Some? {
      var r := Related(items, relation, tableref, describe);
      if OptRelation in f.value.options {
        HasNSpec(relation, tableref, f.value.options[OptRelation], f.value.ty, describe);
      } else {
        BelongsSelectsSpec(items, relation, tableref);
      }
      assert r.Err? ==> r.error == InvalidModelType || r.error == Panic;
    }
  }
}
