/** What the library learns from Go's reflection, made explicit: a model's
    type, the table name derived from it, the descriptors of its fields, and
    the emptiness test for field values (reflect.go). */
module Reflect {
  import opened Base

  /** The kind of a type that is not a pointer, slice or array. */
  datatype Kind = Struct | Int | Uint | Bool | String | Float | MapKind | Interface | Func | Chan

  /** A Go type as the library inspects it. An anonymous type has the empty name. */
  datatype GoType =
    | Ptr(elem: GoType)
    | Slice(elem: GoType)
    | Array(elem: GoType)
    | Named(name: string, kind: Kind)

  /** The interface value handed to the library as a model: the untyped nil,
      or a value of some type (isNil says whether that value is a nil pointer). */
  datatype ModelRef = NilModel | Model(ty: GoType, isNil: bool)

  /** reflect.TypeOf: the untyped nil has no type. */
  function TypeOf(model: ModelRef): Option<GoType>
  {
    if model.NilModel? then None else Some(model.ty)
  }

  /** The type left once every pointer, slice and array layer is removed. */
  function Core(t: GoType): (r: GoType)
    ensures r.Named?
    ensures t.Named? ==> r == t
  {
    match t
    case Named(_, _) => t
    case Ptr(e) => Core(e)
    case Slice(e) => Core(e)
    case Array(e) => Core(e)
  }

  /** The core type of an optional type; the absent type stays absent. */
  function CoreType(t: Option<GoType>): (r: Option<GoType>)
    ensures r.None? <==> t.None?
    ensures r.Some? ==> r.value.Named?
    ensures t.Some? && t.value.Named? ==> r == t
  {
    if t.None? then None else Some(Core(t.value))
  }

  /** Wrapping a type in pointers, slices or arrays never changes its core type. */
  lemma {:induction false} CoreTypeIgnoresWrappers(t: GoType)
    ensures CoreType(Some(Ptr(t))) == CoreType(Some(t))
    ensures CoreType(Some(Slice(t))) == CoreType(Some(t))
    ensures CoreType(Some(Array(t))) == CoreType(Some(t))
    ensures CoreType(CoreType(Some(t))) == CoreType(Some(t))
  {
  }

  /** coreTypeOf: the loop of reflect.go that re-assigns t to its element type. */
  method CoreTypeOf(model: ModelRef) returns (r: Option<GoType>)
    ensures r == CoreType(TypeOf(model))
    ensures r.None? <==> model.NilModel?
  {
    var t := TypeOf(model);
    if t.None? {
      return None;
    }
    var cur := t.value;
    while !cur.Named?
      invariant CoreType(Some(cur)) == CoreType(t)
      decreases cur
    {
      cur := cur.elem;
    }
    return Some(cur);
  }

  /** flect.Pluralize is not part of this model. This stand-in only has to give
      every lower-cased type name some table name; no contract depends on its text. */
  function Pluralize(word: string): string
  {
    word + "s"
  }

  /** tableName: the pluralised lower-case name of the core type, or
      ErrInvalidType for the untyped nil and for anonymous types. */
  function TableName(model: ModelRef): (r: Result<string>)
    ensures var core := CoreType(TypeOf(model));
      r.Err? <==> core.None? || core.value.name == ""
    ensures r.Err? ==> r.error == InvalidModelType
    ensures r.Ok? ==> r.value == Pluralize(Lower(CoreType(TypeOf(model)).value.name))
  {
    var t := CoreType(TypeOf(model));
    if t.None? then Err(InvalidModelType)
    else
      var modelName := Lower(t.value.name);
      if modelName == "" then Err(InvalidModelType) else Ok(Pluralize(modelName))
  }

  /** tableNameByType is not part of this model; it is taken to follow
      tableName's rules for a value of the given type. */
  function TableNameByType(t: GoType): Result<string>
  {
    TableName(Model(t, false))
  }

  /** deref is not part of this model; it is taken to remove one pointer layer,
      as sqlx's reflectx.Deref does. */
  function Deref(t: GoType): GoType
  {
    if t.Ptr? then t.elem else t
  }

  /** One entry of sqlx's field index for a struct type (reflectx.FieldInfo):
      the field's own name, its dotted path from the root, the index path of
      struct offsets, the options of its tag, the path of its parent when the
      field sits inside an embedded struct, and its declared type. */
  datatype FieldInfo = FieldInfo(
    name: string,
    path: string,
    index: seq<nat>,
    options: map<string, string>,
    parent: Option<string>,
    ty: GoType)

  /** The filter of Mapper.FieldList: no '.' after the first character, and a
      non-empty index path. */
  predicate IsTopLevel(fi: FieldInfo)
  {
    IndexOf(fi.path, '.') <= 0 && |fi.index| >= 1
  }

  /** Mapper.FieldList: the loop that keeps the top-level descriptors. */
  method TopLevelFields(index: seq<FieldInfo>) returns (fields: seq<FieldInfo>)
    ensures fields == Filter(index, IsTopLevel)
  {
    fields := [];
    var i := 0;
    while i < |index|
      invariant 0 <= i <= |index|
      invariant fields == Filter(index[..i], IsTopLevel)
    {
      var fi := index[i];
      assert index[..i + 1][..i] == index[..i];
      if IndexOf(fi.path, '.') > 0 || |fi.index| < 1 {
        i := i + 1;
        continue;
      }
      fields := fields + [fi];
      i := i + 1;
    }
    assert index[..|index|] == index;
  }

  /** What Mapper.FieldList keeps: exactly the descriptors whose path has no
      '.' at all or starts with '.', and whose index path is non-empty, in
      their original order. A path such as ".a.b" is kept, because only the
      first '.' is looked for and it sits at position 0. */
  lemma TopLevelFieldsKeep(index: seq<FieldInfo>)
    ensures forall fi :: fi in Filter(index, IsTopLevel) <==>
      fi in index && ('.' !in fi.path || fi.path[0] == '.') && |fi.index| >= 1
    ensures IsSubsequence(Filter(index, IsTopLevel), index)
  {
    FilterProperties(index, IsTopLevel);
    FilterIsSubsequence(index, IsTopLevel);
    forall fi: FieldInfo
      ensures IsTopLevel(fi) <==> ('.' !in fi.path || fi.path[0] == '.') && |fi.index| >= 1
    {
      var k := IndexOf(fi.path, '.');
      if k > 0 {
        assert fi.path[0] in fi.path[..k];
      }
    }
  }

  /** A field value as isEmptyValue inspects it. Floating-point values are
      not part of this model. A struct implementing driver.Valuer is
      represented by whether its Value() is nil. */
  datatype GoValue =
    | ArrayValue(length: nat)
    | MapValue(length: nat)
    | SliceValue(length: nat)
    | StringValue(s: string)
    | BoolValue(b: bool)
    | IntValue(i: int)
    | UintValue(n: nat)
    | PtrValue(isNil: bool)
    | InterfaceValue(isNil: bool)
    | ValuerStruct(valueIsNil: bool)
    | PlainStruct
    | OtherValue

  /** The zero value of the same kind (an array keeps its fixed length). */
  function ZeroLike(v: GoValue): GoValue
  {
    match v
    case ArrayValue(n) => ArrayValue(n)
    case MapValue(_) => MapValue(0)
    case SliceValue(_) => SliceValue(0)
    case StringValue(_) => StringValue("")
    case BoolValue(_) => BoolValue(false)
    case IntValue(_) => IntValue(0)
    case UintValue(_) => UintValue(0)
    case PtrValue(_) => PtrValue(true)
    case InterfaceValue(_) => InterfaceValue(true)
    case ValuerStruct(_) => ValuerStruct(true)
    case PlainStruct => PlainStruct
    case OtherValue => OtherValue
  }

  /** isEmptyValue (without the floating-point case). */
  function IsEmptyValue(v: GoValue): (r: bool)
    ensures v.MapValue? || v.SliceValue? || v.StringValue? || v.BoolValue? ||
      v.IntValue? || v.UintValue? || v.PtrValue? || v.InterfaceValue? || v.ValuerStruct?
      ==> (r <==> v == ZeroLike(v))
    ensures v.ArrayValue? ==> (r <==> v.length == 0)
    ensures v.PlainStruct? || v.OtherValue? ==> !r
  {
    match v
    case ArrayValue(n) => n == 0
    case MapValue(n) => n == 0
    case SliceValue(n) => n == 0
    case StringValue(s) => |s| == 0
    case BoolValue(b) => !b
    case IntValue(i) => i == 0
    case UintValue(n) => n == 0
    case PtrValue(isNil) => isNil
    case InterfaceValue(isNil) => isNil
    case ValuerStruct(valueIsNil) => valueIsNil
    case PlainStruct => false
    case OtherValue => false
  }
}
