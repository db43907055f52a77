/** WHERE-clause operators (operator.go): a tree of IS NULL, binary,
    equality, negation and grouping nodes, its SQL text, its parameter keys
    in order, and the values bound to them. */
module Operators {
  import opened Base

  /** A Go value handed to an operator: nil, a scalar, or a slice. */
  datatype Value = Nil | BoolV(b: bool) | IntV(i: int) | StrV(s: string) | List(items: seq<Value>)

  /** The group an operator belongs to: NewGroupOp's named group, AND, or OR. */
  datatype GroupKind = Plain(name: string) | AndGroup | OrGroup

  /** The text between the items of a group. */
  function Conj(kind: GroupKind): string
  {
    match kind
    case Plain(name) => name
    case AndGroup => "AND"
    case OrGroup => "OR"
  }

  datatype Op =
    | IsNull(column: string, value: bool)                                      // NULL
    | Binary(column: string, arg: Value, truthyRel: string, falsyRel: string)  // BINARY
    | Equal(column: string, arg: Value)                                        // EQ
    | Negation(inner: Op)                                                      // NOT
    | Group(kind: GroupKind, items: seq<Op>)                                   // GroupOperator, AND, OR

  // ---------------------------------------------------------------------
  // Constructors

  /** NULL: binds the column's key to nil. */
  function Null(col: string, value: bool): (r: Op)
    ensures Keys(r) == [col] && Values(r) == map[col := Nil]
  {
    IsNull(col, value)
  }

  /** BinaryOp: a nil value turns the operator into `col IS NULL`. */
  function BinaryOp(col: string, value: Value, truthy: string, falsy: string): (r: Op)
    ensures value.Nil? ==> r == IsNull(col, true)
    ensures !value.Nil? ==> r == Binary(col, value, truthy, falsy)
  {
    if value.Nil? then Null(col, true) else Binary(col, value, truthy, falsy)
  }

  /** Lt, Gt, Le and Ge bind the column's key to the value, nil included. */
  function Lt(col: string, value: Value): (r: Op)
    ensures Keys(r) == [col] && Values(r) == map[col := value]
  {
    BinaryOp(col, value, "<", ">=")
  }

  function Gt(col: string, value: Value): (r: Op)
    ensures Keys(r) == [col] && Values(r) == map[col := value]
  {
    BinaryOp(col, value, ">", "<=")
  }

  function Le(col: string, value: Value): (r: Op)
    ensures Keys(r) == [col] && Values(r) == map[col := value]
  {
    BinaryOp(col, value, "<=", ">")
  }

  function Ge(col: string, value: Value): (r: Op)
    ensures Keys(r) == [col] && Values(r) == map[col := value]
  {
    BinaryOp(col, value, ">=", "<")
  }

  /** Eq: a nil value turns the operator into `col IS NULL`. */
  function Eq(col: string, value: Value): (r: Op)
    ensures value.Nil? ==> r == IsNull(col, true)
    ensures !value.Nil? ==> r == Equal(col, value)
  {
    if value.Nil? then Null(col, true) else Equal(col, value)
  }

  /** NOT: the operand's clause with the flag flipped, and its keys and values. */
  function Not(op: Op): (r: Op)
    ensures Where(r, true) == Where(op, false) && Where(r, false) == Where(op, true)
    ensures Keys(r) == Keys(op) && Values(r) == Values(op)
  {
    Negation(op)
  }

  /** The Grouper test of GroupOperator.Where: groups have an Add method; a
      negation does not, whatever it wraps. */
  predicate IsGrouper(op: Op)
  {
    op.Group?
  }

  // ---------------------------------------------------------------------
  // Rendering

  /** Where(truthy): the clause, or its negation when truthy is false. */
  function Where(op: Op, truthy: bool): string
    decreases op, 1
  {
    match op
    case IsNull(col, value) =>
      col + " " + (if value == truthy then "IS NULL" else "IS NOT NULL")
    case Binary(col, _, t, f) =>
      col + " " + (if truthy then t else f) + " :" + col
    case Equal(col, arg) =>
      if arg.List? then
        if |arg.items| < 1 then ""
        else col + " " + (if truthy then "" else "NOT ") + "IN (:" + col + ")"
      else col + " " + (if truthy then "=" else "<>") + " :" + col
    case Negation(inner) => Where(inner, !truthy)
    case Group(kind, items) =>
      if |items| == 1 then Where(items[0], truthy)
      else
        var ret := Join(Clauses(items), " " + Conj(kind) + " ");
        if truthy then ret else "NOT (" + ret + ")"
  }

  /** The positive clause of a group's item, parenthesised when the item is a group. */
  function Clause(item: Op): string
    decreases item, 2
  {
    if IsGrouper(item) then "(" + Where(item, true) + ")" else Where(item, true)
  }

  /** Keys: the parameter names in order. */
  function Keys(op: Op): seq<string>
    decreases op
  {
    match op
    case IsNull(col, _) => [col]
    case Binary(col, _, _, _) => [col]
    case Equal(col, _) => [col]
    case Negation(inner) => Keys(inner)
    case Group(_, items) => KeysAll(items)
  }

  /** The keys of the items of a group, concatenated in order. */
  function KeysAll(items: seq<Op>): seq<string>
    decreases items
  {
    if |items| == 0 then [] else KeysAll(items[..|items| - 1]) + Keys(items[|items| - 1])
  }

  /** Values: the value bound to each key; IS NULL binds nil. */
  function Values(op: Op): map<string, Value>
    decreases op
  {
    match op
    case IsNull(col, _) => map[col := Nil]
    case Binary(col, arg, _, _) => map[col := arg]
    case Equal(col, arg) => map[col := arg]
    case Negation(inner) => Values(inner)
    case Group(_, items) => ValuesAll(items)
  }

  /** The union of the items' values, a later item overriding an earlier one. */
  function ValuesAll(items: seq<Op>): map<string, Value>
    decreases items
  {
    if |items| == 0 then map[] else ValuesAll(items[..|items| - 1]) + Values(items[|items| - 1])
  }

  /** Every key has a value and every value belongs to a key. */
  lemma {:induction false} ValuesCoverKeys(op: Op)
    ensures Values(op).Keys == set k | k in Keys(op)
    decreases op, 1
  {
    match op
    case IsNull(_, _) =>
    case Binary(_, _, _, _) =>
    case Equal(_, _) =>
    case Negation(inner) => ValuesCoverKeys(inner);
    case Group(_, items) => ValuesAllCoverKeys(items);
  }

  lemma {:induction false} ValuesAllCoverKeys(items: seq<Op>)
    ensures ValuesAll(items).Keys == set k | k in KeysAll(items)
    decreases items, 0
  {
    if |items| > 0 {
      ValuesAllCoverKeys(items[..|items| - 1]);
      ValuesCoverKeys(items[|items| - 1]);
    }
  }

  // ---------------------------------------------------------------------
  // Properties of the rendering

  /** NULL.Where: IS NULL exactly when the stored flag equals truthy. */
  lemma NullWhere(col: string, value: bool, truthy: bool)
    ensures Where(Null(col, value), truthy) ==
      if value == truthy then col + " IS NULL" else col + " IS NOT NULL"
    ensures Values(Null(col, value)) == map[col := Nil] && Keys(Null(col, value)) == [col]
  {
    assert col + " " + "IS NULL" == col + " IS NULL";
    assert col + " " + "IS NOT NULL" == col + " IS NOT NULL";
  }

  /** Eq and BinaryOp with a nil value render `col IS NULL`. */
  lemma NilIsNull(col: string, truthy: string, falsy: string)
    ensures Where(Eq(col, Nil), true) == col + " IS NULL"
    ensures Where(BinaryOp(col, Nil, truthy, falsy), true) == col + " IS NULL"
  {
    NullWhere(col, true, true);
  }

  /** EQ.Where: `col = :col` / `col <> :col` for a scalar, `col IN (:col)` /
      `col NOT IN (:col)` for a non-empty slice, nothing for an empty slice. */
  lemma EqualWhere(col: string, value: Value, truthy: bool)
    requires !value.Nil?
    ensures !value.List? ==> (Where(Eq(col, value), truthy) ==
      col + (if truthy then " = :" else " <> :") + col)
    ensures value.List? && |value.items| > 0 ==> (Where(Eq(col, value), truthy) ==
      col + (if truthy then " IN (:" else " NOT IN (:") + col + ")")
    ensures value.List? && |value.items| == 0 ==> Where(Eq(col, value), truthy) == ""
  {
    var w := Where(Eq(col, value), truthy);
    if !value.List? {
      assert w == col + " " + (if truthy then "=" else "<>") + " :" + col;
      if truthy {
        assert col + " " + "=" + " :" + col == col + " = :" + col;
      } else {
        assert col + " " + "<>" + " :" + col == col + " <> :" + col;
      }
    } else if |value.items| > 0 {
      if truthy {
        assert col + " " + "" + "IN (:" + col + ")" == col + " IN (:" + col + ")";
      } else {
        assert col + " " + "NOT " + "IN (:" + col + ")" == col + " NOT IN (:" + col + ")";
      }
    }
  }

  /** NOT flips the flag it passes on, so a double negation renders like the operator itself. */
  lemma NotWhere(op: Op, truthy: bool)
    ensures Where(Not(op), truthy) == Where(op, !truthy)
    ensures Where(Not(Not(op)), truthy) == Where(op, truthy)
    ensures Keys(Not(op)) == Keys(op) && Values(Not(op)) == Values(op)
  {
  }

  /** The falsy relation of Lt, Gt, Le and Ge is the truthy relation of its complement. */
  lemma ComplementRelations(col: string, value: Value)
    requires !value.Nil?
    ensures Where(Lt(col, value), false) == Where(Ge(col, value), true)
    ensures Where(Ge(col, value), false) == Where(Lt(col, value), true)
    ensures Where(Gt(col, value), false) == Where(Le(col, value), true)
    ensures Where(Le(col, value), false) == Where(Gt(col, value), true)
  {
  }

  /** A group of one item renders as that item, with the same flag. */
  lemma SingleItemGroup(kind: GroupKind, item: Op, truthy: bool)
    ensures Where(Group(kind, [item]), truthy) == Where(item, truthy)
  {
  }

  /** A group of several items, or of none, renders falsy as its truthy
      clause wrapped in `NOT (…)`: the negation applies to the whole group,
      never item by item. */
  lemma GroupWhere(kind: GroupKind, items: seq<Op>)
    requires |items| != 1
    ensures Where(Group(kind, items), false) == "NOT (" + Where(Group(kind, items), true) + ")"
    ensures |items| == 0 ==> Where(Group(kind, items), true) == ""
  {
  }

  /** The clauses of a group's items. */
  function Clauses(items: seq<Op>): (r: seq<string>)
    ensures |r| == |items|
    decreases items, 3
  {
    seq(|items|, i requires 0 <= i < |items| => Clause(items[i]))
  }

  /** One more item extends a group of at least two by the conjunction and
      that item's clause; so a group of n >= 2 items renders as
      `c1 <conj> c2 <conj> … <conj> cn`. */
  lemma {:induction false} GroupSnoc(kind: GroupKind, items: seq<Op>, x: Op)
    requires |items| >= 2
    ensures Where(Group(kind, items + [x]), true) ==
      Where(Group(kind, items), true) + " " + Conj(kind) + " " + Clause(x)
  {
    assert Clauses(items + [x]) == Clauses(items) + [Clause(x)];
    JoinSnoc(Clauses(items), " " + Conj(kind) + " ", Clause(x));
  }

  /** Two items render as their clauses joined by the conjunction. */
  lemma {:induction false} GroupPair(kind: GroupKind, a: Op, b: Op)
    ensures Where(Group(kind, [a, b]), true) == Clause(a) + " " + Conj(kind) + " " + Clause(b)
  {
    assert Clauses([a, b]) == Clauses([a]) + [Clause(b)];
    JoinSnoc(Clauses([a]), " " + Conj(kind) + " ", Clause(b));
  }

  /** A nested group is parenthesised inside its parent, a plain operator is
      not: `Or(And(a, b), c)` renders as `(a AND b) OR c`. */
  lemma {:induction false} NestedGroupWhere(a: Op, b: Op, c: Op)
    requires !a.Group? && !b.Group? && !c.Group?
    ensures Where(Or([And([a, b]), c]), true) ==
      "(" + (Where(a, true) + " AND " + Where(b, true)) + ")" + " OR " + Where(c, true)
  {
    var ab := Group(AndGroup, [a, b]);
    NestedGroupShape(a, b, c);
    GroupPair(AndGroup, a, b);
    GroupPair(OrGroup, ab, c);
    var wa, wb, wc := Where(a, true), Where(b, true), Where(c, true);
    assert Where(ab, true) == wa + " AND " + wb by {
      assert wa + " " + "AND" + " " + wb == wa + " AND " + wb;
    }
    assert Clause(ab) == "(" + (wa + " AND " + wb) + ")";
    assert Clause(ab) + " " + "OR" + " " + wc == Clause(ab) + " OR " + wc;
  }

  lemma NestedGroupShape(a: Op, b: Op, c: Op)
    requires !a.Group? && !b.Group? && !c.Group?
    ensures Or([And([a, b]), c]) == Group(OrGroup, [Group(AndGroup, [a, b]), c])
  {
    SplicedPair(AndGroup, a, b);
    SplicedPair(OrGroup, Group(AndGroup, [a, b]), c);
  }

  /** Two operands neither of which is spliced are added as they are. */
  lemma SplicedPair(kind: GroupKind, x: Op, y: Op)
    requires Gained(kind, x) == [x] && Gained(kind, y) == [y]
    ensures Spliced(kind, [x, y]) == [x, y]
  {
    assert [x, y][..1] == [x] && [x][..0] == [];
    assert Spliced(kind, [x]) == Spliced(kind, []) + Gained(kind, x);
    assert Spliced(kind, [x, y]) == Spliced(kind, [x]) + Gained(kind, y);
  }

  // ---------------------------------------------------------------------
  // Adding items to groups

  /** The items a group gains from Add: an AND splices in the items of an
      AND operand and an OR those of an OR operand; a plain group appends
      every operand as it is. */
  function Spliced(kind: GroupKind, ops: seq<Op>): seq<Op>
  {
    if |ops| == 0 then []
    else
      var last := ops[|ops| - 1];
      Spliced(kind, ops[..|ops| - 1]) + Gained(kind, last)
  }

  /** GroupOperator.Add, AND.Add and OR.Add: the loop over the operands. */
  method Add(g: Op, ops: seq<Op>) returns (r: Op)
    requires g.Group?
    ensures r == Group(g.kind, g.items + Spliced(g.kind, ops))
  {
    var items := g.items;
    var i := 0;
    while i < |ops|
      invariant 0 <= i <= |ops|
      invariant items == g.items + Spliced(g.kind, ops[..i])
    {
      var item := ops[i];
      assert ops[..i + 1][..i] == ops[..i];
      if !g.kind.Plain? && item.Group? && item.kind == g.kind {
        items := items + item.items;
      } else {
        items := items + [item];
      }
      i := i + 1;
    }
    assert ops[..|ops|] == ops;
    return Group(g.kind, items);
  }

  /** And(ops...): a fresh AND with the operands added; it has the
      operands' keys in order and their values. */
  function And(ops: seq<Op>): (r: Op)
    ensures r.Group? && r.kind == AndGroup
    ensures Keys(r) == KeysAll(ops) && Values(r) == ValuesAll(ops)
  {
    SplicedKeys(AndGroup, ops);
    SplicedValues(AndGroup, ops);
    Group(AndGroup, Spliced(AndGroup, ops))
  }

  /** Or(ops...): a fresh OR with the operands added; it has the operands'
      keys in order and their values. */
  function Or(ops: seq<Op>): (r: Op)
    ensures r.Group? && r.kind == OrGroup
    ensures Keys(r) == KeysAll(ops) && Values(r) == ValuesAll(ops)
  {
    SplicedKeys(OrGroup, ops);
    SplicedValues(OrGroup, ops);
    Group(OrGroup, Spliced(OrGroup, ops))
  }

  lemma {:induction false} KeysAllAppend(a: seq<Op>, b: seq<Op>)
    ensures KeysAll(a + b) == KeysAll(a) + KeysAll(b)
    decreases |b|
  {
    if |b| > 0 {
      assert (a + b)[..|a + b| - 1] == a + b[..|b| - 1];
      KeysAllAppend(a, b[..|b| - 1]);
    } else {
      assert a + b == a;
    }
  }

  lemma {:induction false} ValuesAllAppend(a: seq<Op>, b: seq<Op>)
    ensures ValuesAll(a + b) == ValuesAll(a) + ValuesAll(b)
    decreases |b|
  {
    if |b| > 0 {
      assert (a + b)[..|a + b| - 1] == a + b[..|b| - 1];
      ValuesAllAppend(a, b[..|b| - 1]);
    } else {
      assert a + b == a;
    }
  }

  lemma SingletonKeysValues(op: Op)
    ensures KeysAll([op]) == Keys(op) && ValuesAll([op]) == Values(op)
  {
    assert [op][..0] == [];
  }

  /** The items added for the last operand: its own items when spliced, itself otherwise. */
  function Gained(kind: GroupKind, op: Op): seq<Op>
  {
    if !kind.Plain? && op.Group? && op.kind == kind then op.items else [op]
  }

  lemma GainedKeysValues(kind: GroupKind, op: Op)
    ensures KeysAll(Gained(kind, op)) == Keys(op) && ValuesAll(Gained(kind, op)) == Values(op)
  {
    SingletonKeysValues(op);
  }

  /** Splicing is invisible to Keys: the spliced items have the operands' keys in the same order. */
  lemma {:induction false} SplicedKeys(kind: GroupKind, ops: seq<Op>)
    ensures KeysAll(Spliced(kind, ops)) == KeysAll(ops)
  {
    if |ops| > 0 {
      var init := ops[..|ops| - 1];
      var last := ops[|ops| - 1];
      SplicedKeys(kind, init);
      KeysAllAppend(Spliced(kind, init), Gained(kind, last));
      GainedKeysValues(kind, last);
    }
  }

  /** Splicing is invisible to Values: the spliced items bind the operands' values. */
  lemma {:induction false} SplicedValues(kind: GroupKind, ops: seq<Op>)
    ensures ValuesAll(Spliced(kind, ops)) == ValuesAll(ops)
  {
    if |ops| > 0 {
      var init := ops[..|ops| - 1];
      var last := ops[|ops| - 1];
      SplicedValues(kind, init);
      ValuesAllAppend(Spliced(kind, init), Gained(kind, last));
      GainedKeysValues(kind, last);
    }
  }

  /** Add keeps the group's keys and appends the operands' keys in order;
      the operands' values override the group's. */
  lemma AddKeysValues(g: Op, ops: seq<Op>)
    requires g.Group?
    ensures Keys(Group(g.kind, g.items + Spliced(g.kind, ops))) == Keys(g) + KeysAll(ops)
    ensures Values(Group(g.kind, g.items + Spliced(g.kind, ops))) == Values(g) + ValuesAll(ops)
  {
    SplicedKeys(g.kind, ops);
    SplicedValues(g.kind, ops);
    KeysAllAppend(g.items, Spliced(g.kind, ops));
    ValuesAllAppend(g.items, Spliced(g.kind, ops));
  }

  /** No item an AND or OR gains from Add is a group of its own kind. */
  lemma {:induction false} SplicedIsFlat(kind: GroupKind, ops: seq<Op>)
    requires !kind.Plain?
    requires forall o :: o in ops && o.Group? && o.kind == kind ==>
      forall x :: x in o.items ==> !(x.Group? && x.kind == kind)
    ensures forall x :: x in Spliced(kind, ops) ==> !(x.Group? && x.kind == kind)
  {
    if |ops| > 0 {
      SplicedIsFlat(kind, ops[..|ops| - 1]);
    }
  }

  /** The filter-query case of the selector test: two `Where` calls build
      `And(Eq("id", 3), Eq("extras", nil))`. */
  lemma FilterQueryExample()
    ensures var op := And([Eq("id", IntV(3)), Eq("extras", Nil)]);
      && op == Group(AndGroup, [Equal("id", IntV(3)), IsNull("extras", true)])
      && Where(op, true) == "id = :id AND extras IS NULL"
      && Keys(op) == ["id", "extras"]
      && Values(op) == map["id" := IntV(3), "extras" := Nil]
  {
    var a := Equal("id", IntV(3));
    var b := IsNull("extras", true);
    FilterQueryShape(a, b);
    FilterQueryText(a, b);
    FilterQueryKeys(a, b);
  }

  lemma FilterQueryShape(a: Op, b: Op)
    requires a == Equal("id", IntV(3)) && b == IsNull("extras", true)
    ensures And([Eq("id", IntV(3)), Eq("extras", Nil)]) == Group(AndGroup, [a, b])
  {
    assert Eq("id", IntV(3)) == a && Eq("extras", Nil) == b;
    assert [a, b][..1] == [a] && [a][..0] == [];
    assert Spliced(AndGroup, [a]) == [a];
    assert Spliced(AndGroup, [a, b]) == [a, b];
  }

  lemma FilterQueryKeys(a: Op, b: Op)
    requires a == Equal("id", IntV(3)) && b == IsNull("extras", true)
    ensures KeysAll([a, b]) == ["id", "extras"]
    ensures ValuesAll([a, b]) == map["id" := IntV(3), "extras" := Nil]
  {
    assert [a, b][..1] == [a] && [a][..0] == [];
    assert KeysAll([a]) == ["id"];
    assert ValuesAll([a]) == map["id" := IntV(3)];
  }

  lemma FilterQueryText(a: Op, b: Op)
    requires a == Equal("id", IntV(3)) && b == IsNull("extras", true)
    ensures Where(Group(AndGroup, [a, b]), true) == "id = :id AND extras IS NULL"
  {
    FilterQueryClauses(a, b);
    var clauses := ["id = :id", "extras IS NULL"];
    assert Clauses([a, b]) == clauses;
    FilterQueryJoin(clauses);
  }

  lemma FilterQueryClauses(a: Op, b: Op)
    requires a == Equal("id", IntV(3)) && b == IsNull("extras", true)
    ensures Clause(a) == "id = :id" && Clause(b) == "extras IS NULL"
  {
    assert "id" + " " + "=" + " :" + "id" == "id = :id";
    assert "extras" + " " + "IS NULL" == "extras IS NULL";
  }

  lemma FilterQueryJoin(clauses: seq<string>)
    requires clauses == ["id = :id", "extras IS NULL"]
    ensures Join(clauses, " " + Conj(AndGroup) + " ") == "id = :id AND extras IS NULL"
  {
    assert " " + Conj(AndGroup) + " " == " AND ";
    assert clauses[..1] == ["id = :id"];
    assert "id = :id" + " AND " + "extras IS NULL" == "id = :id AND extras IS NULL";
  }
}
