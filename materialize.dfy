/** Placing the columns of a result row into a model value: the walk of
    fieldByIndexes, which allocates nil pointers and nil maps on its way down,
    and fieldsByTraversal, which prepares one scan target per column.

    Go reflection is replaced by an explicit value tree. A struct is the
    sequence of its field values; a nil pointer carries the zero value of its
    pointee type, which is what reflect.New would allocate. */
module Materialize {
  import opened Base
  import opened FieldLists

  datatype Val =
    | Leaf(x: int)
    | Struct(fields: seq<Val>)
    | Pointer(target: Option<Val>, zero: Val)
    | Mapping(isNil: bool)

  /** A nil pointer or a nil map: the two things the walk allocates. */
  predicate IsNilRef(v: Val)
  {
    (v.Pointer? && v.target.None?) || (v.Mapping? && v.isNil)
  }

  /** reflect.Indirect: the pointee of a non-nil pointer, anything else itself. */
  function Indirect(v: Val): Val
  {
    if v.Pointer? && v.target.Some? then v.target.value else v
  }

  /** Writing a new pointee back through the pointer Indirect looked through. */
  function Reattach(v: Val, s: Val): Val
  {
    if v.Pointer? && v.target.Some? then v.(target := Some(s)) else s
  }

  /** The allocation step of fieldByIndexes: reflect.New for a nil pointer,
      reflect.MakeMap for a nil map, nothing otherwise. */
  function Fill(v: Val): (r: Val)
    ensures !IsNilRef(r)
    ensures !IsNilRef(v) ==> r == v
  {
    if v.Pointer? && v.target.None? then Pointer(Some(v.zero), v.zero)
    else if v.Mapping? && v.isNil then Mapping(false)
    else v
  }

  /** fieldByIndexes as the new state of the walked value: every field on the
      index path is reached through Indirect and Field, and allocated when it
      is a nil pointer or a nil map. A step that reflect would refuse (Field of
      a non-struct, an index out of range) is a panic. */
  function Alloc(v: Val, indexes: seq<nat>): (r: Result<Val>)
    ensures r.Err? ==> r.error == Panic
    ensures r.Ok? && |indexes| > 0 ==> (
      var s, s' := Indirect(v), Indirect(r.value);
      && s.Struct? && s'.Struct? && |s'.fields| == |s.fields|
      && (forall k :: 0 <= k < |s.fields| && k != indexes[0] ==> s'.fields[k] == s.fields[k]))
    ensures r.Ok? ==> Reach(r.value, indexes).Some?
    decreases |indexes|
  {
    if |indexes| == 0 then Ok(v)
    else
      var s := Indirect(v);
      if !s.Struct? || indexes[0] >= |s.fields| then Err(Panic)
      else
        match Alloc(Fill(s.fields[indexes[0]]), indexes[1..])
        case Err(e) => Err(e)
        case Ok(f) => Ok(Reattach(v, s.(fields := s.fields[indexes[0] := f])))
  }

  /** One level of the walk: the walked field of the outer struct becomes
      the walk of the rest of the path from that field, allocated first when
      it is a nil pointer or a nil map. With the frame Alloc states for the
      outer struct, this gives the frame at every level of the path. */
  lemma AllocLevel(v: Val, indexes: seq<nat>)
    requires |indexes| > 0 && Alloc(v, indexes).Ok?
    ensures var s, s' := Indirect(v), Indirect(Alloc(v, indexes).value);
      && indexes[0] < |s.fields| == |s'.fields|
      && Alloc(Fill(s.fields[indexes[0]]), indexes[1..]) == Ok(s'.fields[indexes[0]])
  {
  }

  /** The value a walk along the index path reaches, without allocating. */
  function Reach(v: Val, indexes: seq<nat>): Option<Val>
    decreases |indexes|
  {
    if |indexes| == 0 then Some(v)
    else
      var s := Indirect(v);
      if !s.Struct? || indexes[0] >= |s.fields| then None
      else Reach(s.fields[indexes[0]], indexes[1..])
  }

  /** Every field on the index path exists and is neither a nil pointer nor a
      nil map. */
  predicate NilFreeAlong(v: Val, indexes: seq<nat>)
    decreases |indexes|
  {
    |indexes| == 0 ||
    var s := Indirect(v);
    && s.Struct? && indexes[0] < |s.fields|
    && !IsNilRef(s.fields[indexes[0]])
    && NilFreeAlong(s.fields[indexes[0]], indexes[1..])
  }

  lemma IndirectReattach(v: Val, s: Val)
    requires Indirect(v).Struct? && s.Struct?
    ensures Indirect(Reattach(v, s)) == s
  {
  }

  /** After the walk no nil pointer or nil map is left on the walked path. */
  lemma {:induction false} AllocNilFree(v: Val, indexes: seq<nat>)
    requires Alloc(v, indexes).Ok?
    ensures NilFreeAlong(Alloc(v, indexes).value, indexes)
    decreases |indexes|
  {
    if |indexes| > 0 {
      var s := Indirect(v);
      var f := Fill(s.fields[indexes[0]]);
      AllocNilFree(f, indexes[1..]);
      var f' := Alloc(f, indexes[1..]).value;
      var s' := s.(fields := s.fields[indexes[0] := f']);
      IndirectReattach(v, s');
      AllocKeepsNilFree(f, indexes[1..]);
    }
  }

  /** The walk never turns a non-nil value into a nil one. */
  lemma AllocKeepsNilFree(v: Val, indexes: seq<nat>)
    requires Alloc(v, indexes).Ok? && !IsNilRef(v)
    ensures !IsNilRef(Alloc(v, indexes).value)
  {
  }

  /** A path that is already nil-free is left as it is. */
  lemma {:induction false} AllocNilFreeNoop(v: Val, indexes: seq<nat>)
    requires NilFreeAlong(v, indexes)
    ensures Alloc(v, indexes) == Ok(v)
    decreases |indexes|
  {
    if |indexes| > 0 {
      var s := Indirect(v);
      var f := s.fields[indexes[0]];
      AllocNilFreeNoop(f, indexes[1..]);
      assert s.fields[indexes[0] := f] == s.fields;
    }
  }

  /** fieldByIndexes is idempotent: a second walk allocates nothing more. */
  lemma AllocIdempotent(v: Val, indexes: seq<nat>)
    requires Alloc(v, indexes).Ok?
    ensures Alloc(Alloc(v, indexes).value, indexes) == Alloc(v, indexes)
  {
    AllocNilFree(v, indexes);
    AllocNilFreeNoop(Alloc(v, indexes).value, indexes);
  }

  /** A walk down one path keeps every other nil-free path nil-free, so the
      walks of several traversals do not undo each other. */
  lemma {:induction false} AllocKeepsOtherPaths(v: Val, p: seq<nat>, q: seq<nat>)
    requires NilFreeAlong(v, p) && Alloc(v, q).Ok?
    ensures NilFreeAlong(Alloc(v, q).value, p)
    decreases |p|
  {
    if |p| > 0 && |q| > 0 {
      var s := Indirect(v);
      var w := Alloc(v, q).value;
      var f := Fill(s.fields[q[0]]);
      var f' := Alloc(f, q[1..]).value;
      var s' := s.(fields := s.fields[q[0] := f']);
      IndirectReattach(v, s');
      if p[0] == q[0] {
        assert f == s.fields[q[0]];
        AllocKeepsOtherPaths(f, p[1..], q[1..]);
        AllocKeepsNilFree(f, q[1..]);
      }
    }
  }

  /** A scan target of fieldsByTraversal. */
  datatype Slot =
    | Discard            // new(interface{}) for a column no field claimed
    | Addr(path: seq<nat>)  // f.Addr().Interface(): the address of the field on that path
    | Copy(value: Val)   // f.Interface(): the field's value at that moment

  datatype Filled = Filled(root: Val, values: seq<Slot>)

  /** The loop of fieldsByTraversal over the traversals, one slot per entry,
      each walk working on the value the previous ones left. */
  function Slots(v: Val, travs: seq<Traversal>, ptrs: bool): Result<Filled>
  {
    if |travs| == 0 then Ok(Filled(v, []))
    else
      match Slots(v, travs[..|travs| - 1], ptrs)
      case Err(e) => Err(e)
      case Ok(f) =>
        var t := travs[|travs| - 1];
        if |t.index| == 0 then Ok(Filled(f.root, f.values + [Discard]))
        else
          match Alloc(f.root, t.index)
          case Err(e) => Err(e)
          case Ok(w) =>
            var slot := if ptrs then Addr(t.index) else Copy(Reach(w, t.index).value);
            Ok(Filled(w, f.values + [slot]))
  }

  /** fieldsByTraversal: a value that is not (a pointer to) a struct is refused. */
  function FieldsByTraversal(v: Val, travs: seq<Traversal>, ptrs: bool): Result<Filled>
  {
    var s := Indirect(v);
    if !s.Struct? then Err(NotAStruct) else Slots(s, travs, ptrs)
  }

  /** A failure in the loop ends it: later traversals do not change the result. */
  lemma {:induction false} SlotsErrSticky(v: Val, travs: seq<Traversal>, ptrs: bool, n: nat)
    requires n <= |travs| && Slots(v, travs[..n], ptrs).Err?
    ensures Slots(v, travs, ptrs) == Slots(v, travs[..n], ptrs)
    decreases |travs| - n
  {
    if n < |travs| {
      assert travs[..n + 1][..n] == travs[..n];
      SlotsErrSticky(v, travs, ptrs, n + 1);
    } else {
      assert travs[..n] == travs;
    }
  }

  /** What fieldsByTraversal promises: one slot per traversal in order, the
      discard placeholder exactly for an empty index, the address or the value
      of the field otherwise, and no nil pointer or nil map left on any walked
      path. */
  lemma {:induction false} SlotsSpec(v: Val, travs: seq<Traversal>, ptrs: bool)
    requires Slots(v, travs, ptrs).Ok?
    ensures var f := Slots(v, travs, ptrs).value;
      && |f.values| == |travs|
      && (forall i :: 0 <= i < |travs| ==>
            (f.values[i].Discard? <==> |travs[i].index| == 0))
      && (forall i :: 0 <= i < |travs| && |travs[i].index| > 0 ==>
            (ptrs ==> f.values[i] == Addr(travs[i].index)) && (!ptrs ==> f.values[i].Copy?))
      && (forall i :: 0 <= i < |travs| ==> NilFreeAlong(f.root, travs[i].index))
  {
    if |travs| > 0 {
      var init := travs[..|travs| - 1];
      var t := travs[|travs| - 1];
      SlotsSpec(v, init, ptrs);
      var f := Slots(v, init, ptrs).value;
      if |t.index| > 0 {
        var w := Alloc(f.root, t.index).value;
        AllocNilFree(f.root, t.index);
        forall i | 0 <= i < |init|
          ensures NilFreeAlong(w, init[i].index)
        {
          AllocKeepsOtherPaths(f.root, init[i].index, t.index);
        }
      }
    }
  }

  /** Without ptrs, the slot of a non-empty traversal is a copy of the field
      its path reaches in the value as it stands right after that
      traversal's own walk: later walks down other paths do not show in it. */
  lemma {:induction false} SlotsCopies(v: Val, travs: seq<Traversal>, ptrs: bool)
    requires Slots(v, travs, ptrs).Ok?
    ensures |Slots(v, travs, ptrs).value.values| == |travs|
    ensures var f := Slots(v, travs, ptrs).value;
      forall i :: 0 <= i < |travs| && |travs[i].index| > 0 && !ptrs ==> (
        var g := Slots(v, travs[..i + 1], ptrs);
        && g.Ok? && Reach(g.value.root, travs[i].index).Some?
        && f.values[i] == Copy(Reach(g.value.root, travs[i].index).value))
  {
    if |travs| > 0 {
      var init := travs[..|travs| - 1];
      SlotsCopies(v, init, ptrs);
      var f := Slots(v, travs, ptrs).value;
      var f0 := Slots(v, init, ptrs).value;
      assert f.values[..|init|] == f0.values;
      forall i | 0 <= i < |travs| && |travs[i].index| > 0 && !ptrs
        ensures var g := Slots(v, travs[..i + 1], ptrs);
          && g.Ok? && Reach(g.value.root, travs[i].index).Some?
          && f.values[i] == Copy(Reach(g.value.root, travs[i].index).value)
      {
        if i < |init| {
          assert init[..i + 1] == travs[..i + 1];
          assert f.values[i] == f0.values[i];
        } else {
          assert travs[..i + 1] == travs;
        }
      }
    }
  }

  /** fieldsByTraversal over a pointer to a struct or a struct; anything else
      is "argument not a struct". */
  lemma FieldsByTraversalRefuses(v: Val, travs: seq<Traversal>, ptrs: bool)
    ensures FieldsByTraversal(v, travs, ptrs) == Err(NotAStruct) <==> !Indirect(v).Struct?
  {
    if Indirect(v).Struct? {
      SlotsErrors(Indirect(v), travs, ptrs);
    }
  }

  /** The only failure inside the loop is a panic of the walk. */
  lemma {:induction false} SlotsErrors(v: Val, travs: seq<Traversal>, ptrs: bool)
    ensures Slots(v, travs, ptrs).Err? ==> Slots(v, travs, ptrs).error == Panic
  {
    if |travs| > 0 {
      SlotsErrors(v, travs[..|travs| - 1], ptrs);
    }
  }

  /** The traversal loop as the method the source runs: one walk per entry,
      the value slice filled in column order. */
  method FillValues(v: Val, travs: seq<Traversal>, ptrs: bool) returns (r: Result<Filled>)
    ensures r == FieldsByTraversal(v, travs, ptrs)
  {
    var root := Indirect(v);
    if !root.Struct? {
      return Err(NotAStruct);
    }
    var values: seq<Slot> := [];
    var i := 0;
    while i < |travs|
      invariant 0 <= i <= |travs|
      invariant Slots(Indirect(v), travs[..i], ptrs) == Ok(Filled(root, values))
    {
      assert travs[..i + 1][..i] == travs[..i];
      var t := travs[i];
      if |t.index| == 0 {
        values := values + [Discard];
      } else {
        var w := Alloc(root, t.index);
        if w.Err? {
          SlotsErrSticky(Indirect(v), travs, ptrs, i + 1);
          return Err(w.error);
        }
        var slot := if ptrs then Addr(t.index) else Copy(Reach(w.value, t.index).value);
        root := w.value;
        values := values + [slot];
      }
      i := i + 1;
    }
    assert travs[..|travs|] == travs;
    return Ok(Filled(root, values));
  }
}
