/** The single-model statements of the Mapper (queries.go): the text of the
    INSERT and UPDATE statements built from the model's field map, and of
    the Find, FindBy, All and Delete queries. Executing them, and the
    timestamp written back after an insert, are outside the model.

    Go iterates a map in an unspecified order; the field map is given here
    as its keys in the order the loop visits them, and every property below
    about membership holds for any such order. */
module Queries {
  import opened Base
  import opened Reflect

  /** A key Create writes: not the id, not an ignored "-" field and not a
      dotted (embedded) path. */
  predicate Insertable(k: string)
  {
    k != "id" && k != "-" && '.' !in k
  }

  /** The value Create writes for a column. */
  function InsertValue(k: string): string
  {
    if k == "created_at" then "NOW()" else ":" + k
  }

  /** The values of the columns, one per column. */
  function InsertValues(cols: seq<string>): (r: seq<string>)
    ensures |r| == |cols|
  {
    seq(|cols|, i requires 0 <= i < |cols| => InsertValue(cols[i]))
  }

  /** The INSERT statement, or "nothing to create" when no key is
      insertable; the statement returns the new id exactly when the model
      has an id field. */
  function InsertSql(table: string, keys: seq<string>): (r: Result<string>)
    ensures r.Err? <==> forall k :: k in keys ==> !Insertable(k)
    ensures r.Err? ==> r.error == NothingToCreate
    ensures r.Ok? ==> ("id" in keys <==> EndsWith(r.value, " RETURNING id"))
  {
    var cols := Filter(keys, Insertable);
    FilterProperties(keys, Insertable);
    assert |cols| >= 1 ==> cols[0] in keys && Insertable(cols[0]);
    if |cols| < 1 then Err(NothingToCreate)
    else
      var stmt := "INSERT INTO " + table + " (" + Join(cols, ", ") + ") VALUES (" + Join(InsertValues(cols), ", ") + ")";
      ReturningSuffix(stmt, "id" in keys);
      Ok(stmt + (if "id" in keys then " RETURNING id" else ""))
  }

  /** A statement closed by a parenthesis ends with the RETURNING clause
      exactly when it is added. */
  lemma ReturningSuffix(stmt: string, withId: bool)
    requires |stmt| > 0 && stmt[|stmt| - 1] == ')'
    ensures EndsWith(stmt + (if withId then " RETURNING id" else ""), " RETURNING id") <==> withId
  {
    var s := stmt + (if withId then " RETURNING id" else "");
    if withId {
      assert s[|s| - 13..] == " RETURNING id";
    } else {
      assert s == stmt;
      assert s[|s| - 1] != " RETURNING id"[12];
    }
  }

  /** Create's statement for a model whose field map has these keys: the
      table name is checked first, then that some key is insertable. */
  function Create(model: ModelRef, keys: seq<string>): (r: Result<string>)
    ensures r.Ok? <==> TableName(model).Ok? && exists k :: k in keys && Insertable(k)
    ensures r.Err? ==> r.error == if TableName(model).Err? then InvalidModelType else NothingToCreate
  {
    var table := TableName(model);
    if table.Err? then Err(table.error) else InsertSql(table.value, keys)
  }

  /** What Create promises: the columns are exactly the insertable keys, in
      the order visited, each with its own value (NOW() for created_at, the
      named parameter otherwise); an id makes the statement return it; no
      insertable key is "nothing to create". */
  lemma CreateSpec(keys: seq<string>)
    ensures var cols := Filter(keys, Insertable);
      && (forall k :: k in cols <==> k in keys && Insertable(k))
      && "id" !in cols && "-" !in cols && (forall k :: k in cols ==> '.' !in k)
      && |InsertValues(cols)| == |cols|
      && (forall i :: 0 <= i < |cols| ==>
            (InsertValues(cols)[i] == "NOW()" <==> cols[i] == "created_at"))
      && (forall i :: 0 <= i < |cols| && cols[i] != "created_at" ==> InsertValues(cols)[i] == ":" + cols[i])
  {
    FilterProperties(keys, Insertable);
    var cols := Filter(keys, Insertable);
    forall i | 0 <= i < |cols|
      ensures InsertValues(cols)[i] == "NOW()" <==> cols[i] == "created_at"
    {
      if cols[i] != "created_at" {
        assert InsertValues(cols)[i][0] == ':';
      }
    }
  }

  /** One more visited key: the columns grow by it exactly when it is insertable. */
  lemma InsertStep(keys: seq<string>, i: nat)
    requires i < |keys|
    ensures Filter(keys[..i + 1], Insertable) ==
      Filter(keys[..i], Insertable) + (if Insertable(keys[i]) then [keys[i]] else [])
    ensures InsertValues(Filter(keys[..i + 1], Insertable)) ==
      InsertValues(Filter(keys[..i], Insertable)) + (if Insertable(keys[i]) then [InsertValue(keys[i])] else [])
  {
    assert keys[..i + 1][..i] == keys[..i];
  }

  /** The loop of Create over the field map: the columns, their values and
      the two flags. */
  method InsertColumns(keys: seq<string>) returns (cols: seq<string>, vals: seq<string>, hasID: bool, hasCreatedAt: bool)
    ensures cols == Filter(keys, Insertable) && vals == InsertValues(cols)
    ensures hasID <==> "id" in keys
    ensures hasCreatedAt <==> "created_at" in keys
  {
    cols, vals := [], [];
    hasID, hasCreatedAt := false, false;
    var i := 0;
    while i < |keys|
      invariant 0 <= i <= |keys|
      invariant cols == Filter(keys[..i], Insertable)
      invariant vals == InsertValues(cols)
      invariant hasID <==> "id" in keys[..i]
      invariant hasCreatedAt <==> "created_at" in keys[..i]
    {
      InsertStep(keys, i);
      assert keys[..i + 1] == keys[..i] + [keys[i]];
      var k := keys[i];
      if k == "id" {
        hasID := true;
      } else if k == "-" || IndexOf(k, '.') >= 0 {
      } else {
        cols := cols + [k];
        if k == "created_at" {
          hasCreatedAt := true;
          vals := vals + ["NOW()"];
        } else {
          vals := vals + [":" + k];
        }
      }
      i := i + 1;
    }
    assert keys[..|keys|] == keys;
  }

  /** Create: the statement, and whether the created_at field is to be set
      after the insert. */
  method CreateStatement(model: ModelRef, keys: seq<string>) returns (r: Result<string>, hasCreatedAt: bool)
    ensures r == Create(model, keys)
    ensures r.Ok? ==> (hasCreatedAt <==> "created_at" in keys)
  {
    var table := TableName(model);
    if table.Err? {
      return Err(table.error), false;
    }
    var cols, vals, hasID;
    cols, vals, hasID, hasCreatedAt := InsertColumns(keys);
    if |cols| < 1 {
      return Err(NothingToCreate), hasCreatedAt;
    }
    var returning := if hasID then " RETURNING id" else "";
    r := Ok("INSERT INTO " + table.value + " (" + Join(cols, ", ") + ") VALUES (" + Join(vals, ", ") + ")" + returning);
  }

  /** The assignment Update writes for a key. */
  function Assign(k: string): string
  {
    k + "=:" + k
  }

  /** The assignments of every key but the id. */
  function Assignments(keys: seq<string>): (r: seq<string>)
    ensures |r| <= |keys|
  {
    if |keys| == 0 then []
    else
      var k := keys[|keys| - 1];
      Assignments(keys[..|keys| - 1]) + (if k == "id" then [] else [Assign(k)])
  }

  /** The UPDATE statement, or the first of "no ID field found" and "nothing
      to create" that applies: a missing id fails first, then a model with
      nothing but the id. The statement selects its row by the id. */
  function UpdateSql(table: string, keys: seq<string>): (r: Result<string>)
    ensures r.Ok? <==> "id" in keys && exists k :: k in keys && k != "id"
    ensures r.Err? ==> r.error == if "id" !in keys then NoIdField else NothingToCreate
    ensures r.Ok? ==> EndsWith(r.value, " WHERE " + Assign("id"))
  {
    AssignmentsSpec(keys);
    FilterProperties(keys, (k: string) => k != "id");
    var others := Filter(keys, (k: string) => k != "id");
    assert |others| > 0 ==> others[0] in keys && others[0] != "id";
    if "id" !in keys then Err(NoIdField)
    else
      var sets := Assignments(keys);
      if |sets| < 1 then Err(NothingToCreate)
      else
        var stmt := "UPDATE " + table + " SET " + Join(sets, ", ");
        assert (stmt + (" WHERE " + Assign("id")))[|stmt|..] == " WHERE " + Assign("id");
        Ok(stmt + (" WHERE " + Assign("id")))
  }

  /** Update's statement for a model whose field map has these keys: the
      table name is checked first, then the id, then that some other key
      is left to set. */
  function Update(model: ModelRef, keys: seq<string>): (r: Result<string>)
    ensures r.Ok? <==> TableName(model).Ok? && "id" in keys && exists k :: k in keys && k != "id"
    ensures r.Err? ==> (r.error ==
      if TableName(model).Err? then InvalidModelType else if "id" !in keys then NoIdField else NothingToCreate)
  {
    var table := TableName(model);
    if table.Err? then Err(table.error) else UpdateSql(table.value, keys)
  }

  /** The assignments are exactly `k=:k` for the keys other than id, in the
      order visited. */
  lemma {:induction false} AssignmentsSpec(keys: seq<string>)
    ensures var others := Filter(keys, (k: string) => k != "id");
      && |Assignments(keys)| == |others|
      && forall i :: 0 <= i < |others| ==> Assignments(keys)[i] == others[i] + "=:" + others[i]
  {
    if |keys| > 0 {
      AssignmentsSpec(keys[..|keys| - 1]);
    }
  }

  /** The loop of Update over the field map. */
  method UpdateStatement(model: ModelRef, keys: seq<string>) returns (r: Result<string>)
    ensures r == Update(model, keys)
  {
    var table := TableName(model);
    if table.Err? {
      return Err(table.error);
    }
    var sets: seq<string> := [];
    var idfield := "";
    var i := 0;
    while i < |keys|
      invariant 0 <= i <= |keys|
      invariant sets == Assignments(keys[..i])
      invariant idfield == (if "id" in keys[..i] then Assign("id") else "")
    {
      assert keys[..i + 1][..i] == keys[..i];
      assert keys[..i + 1] == keys[..i] + [keys[i]];
      var k := keys[i];
      var field := k + "=:" + k;
      if k == "id" {
        idfield := field;
      } else {
        sets := sets + [field];
      }
      i := i + 1;
    }
    assert keys[..|keys|] == keys;
    if idfield == "" {
      return Err(NoIdField);
    }
    if |sets| < 1 {
      return Err(NothingToCreate);
    }
    r := Ok("UPDATE " + table.value + " SET " + Join(sets, ", ") + (" WHERE " + idfield));
  }

  /** Find: the row by id, with a positional `?` parameter. */
  function Find(model: ModelRef): (r: Result<string>)
    ensures r.Err? <==> TableName(model).Err?
    ensures r.Err? ==> r.error == InvalidModelType
  {
    var table := TableName(model);
    if table.Err? then Err(table.error) else Ok("SELECT * FROM " + table.value + " WHERE id = ?")
  }

  /** FindBy: the row by a column match, with the `$1` parameter. */
  function FindBy(model: ModelRef, column: string): (r: Result<string>)
    ensures r.Err? <==> TableName(model).Err?
    ensures r.Err? ==> r.error == InvalidModelType
  {
    var table := TableName(model);
    if table.Err? then Err(table.error) else Ok("SELECT * FROM " + table.value + " WHERE " + column + " = $1")
  }

  /** All: every row of the model's table. */
  function All(models: ModelRef): (r: Result<string>)
    ensures r.Err? <==> TableName(models).Err?
    ensures r.Err? ==> r.error == InvalidModelType
  {
    var table := TableName(models);
    if table.Err? then Err(table.error) else Ok("SELECT * FROM " + table.value)
  }

  /** Delete: the row by id, with the `$1` parameter. */
  function Delete(model: ModelRef): (r: Result<string>)
    ensures r.Err? <==> TableName(model).Err?
    ensures r.Err? ==> r.error == InvalidModelType
  {
    var table := TableName(model);
    if table.Err? then Err(table.error) else Ok("DELETE FROM " + table.value + " WHERE id = $1")
  }

  /** The statements of the model used by the query tests: an id, a name, an
      extra and a created_at column give an insert of the last three,
      created_at set by the database, returning the id. */
  lemma CreateExample(table: string)
    ensures InsertSql(table, ["id", "name", "extra", "created_at"]) ==
      Ok("INSERT INTO " + table + " (" + ("name" + ", " + "extra" + ", " + "created_at") + ") VALUES ("
         + (":name" + ", " + ":extra" + ", " + "NOW()") + ")" + " RETURNING id")
  {
    var keys := ["id", "name", "extra", "created_at"];
    ExampleColumns(keys);
    var cols := ["name", "extra", "created_at"];
    ExampleJoins(cols);
  }

  lemma ExampleColumns(keys: seq<string>)
    requires keys == ["id", "name", "extra", "created_at"]
    ensures Filter(keys, Insertable) == ["name", "extra", "created_at"]
  {
    assert Insertable("name") && Insertable("extra") && Insertable("created_at") && !Insertable("id");
    assert keys[..1] == ["id"] && keys[..1][..0] == [];
    assert Filter(keys[..1], Insertable) == [];
    assert keys[..2][..1] == keys[..1];
    assert Filter(keys[..2], Insertable) == ["name"];
    assert keys[..3][..2] == keys[..2];
    assert Filter(keys[..3], Insertable) == ["name", "extra"];
    assert keys[..|keys| - 1] == keys[..3];
  }

  lemma ExampleJoins(cols: seq<string>)
    requires cols == ["name", "extra", "created_at"]
    ensures InsertValues(cols) == [":name", ":extra", "NOW()"]
    ensures Join(cols, ", ") == "name" + ", " + "extra" + ", " + "created_at"
    ensures Join(InsertValues(cols), ", ") == ":name" + ", " + ":extra" + ", " + "NOW()"
  {
    assert InsertValue("name") == ":name" && InsertValue("extra") == ":extra";
    assert InsertValues(cols) == [":name", ":extra", "NOW()"];
    JoinThree("name", "extra", "created_at");
    JoinThree(":name", ":extra", "NOW()");
  }

  lemma JoinThree(a: string, b: string, c: string)
    ensures Join([a, b, c], ", ") == a + ", " + b + ", " + c
  {
    assert [a, b, c][..2] == [a, b] && [a, b][..1] == [a];
    assert Join([a, b], ", ") == a + ", " + b;
  }
}
