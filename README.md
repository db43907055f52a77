# dmpr core in Dafny

dmpr is a small Go data mapper on top of sqlx. Given a model struct, it
derives the table name from the model's type. From the struct's field
descriptors it builds the SQL text for `SELECT` (with joins for belongs-to
and has-one/has-many relations), `INSERT`, `UPDATE`, `DELETE` and lookups
by id. It maps the columns of a result set back onto fields of the model.
When rows come back with repeated ids, it folds them into one model per id.

This project models that core as Dafny values, functions and methods. It
proves what each step promises. The layout follows the Go files:

| file | module | Go source | what it holds |
|---|---|---|---|
| `base.dfy` | `Base` | (shared) | `Option`/`Result`/`Error`, `strings.Join`, `strings.Replace(…, 1)`, `strings.ToLower`, decimal formatting, order-preserving filter |
| `reflect.dfy` | `Reflect` | `reflect.go` | Go types as a datatype, `coreTypeOf` (a loop), `tableName`, the top-level field filter of `FieldList`, `isEmptyValue` |
| `fieldlist.dfy` | `FieldLists` | `fieldlist.go`, `fields.go` | field descriptors, `QField`, the `FieldList` class with `Itemize` and `TraversalsByName` |
| `fields.dfy` | `Fields` | `fields.go` | `FieldsFor`, `BelongsToFieldsFor`, `HasNFieldsFor`, `RelatedFieldsFor` |
| `materialize.dfy` | `Materialize` | `fields.go` | a value tree, `fieldByIndexes` (allocation along a path), `fieldsByTraversal` |
| `operator.dfy` | `Operators` | `operator.go` | the WHERE operator tree, `Where`/`Keys`/`Values`, the constructors, `Add` |
| `select.dfy` | `Selects` | `select.go` | `NewSelect`, the `SelectQuery` class and its builders, `allSelector`, `handleJoins` |
| `rows.dfy` | `Rows` | `select.go` | the id column search and the id-dedup/merge loop of `All` |
| `queries.dfy` | `Queries` | `queries.go` | statement text of `Create`, `Update`, `Find`, `FindBy`, `All`, `Delete` |

Each imperative Go loop is a Dafny `method` with a `while` loop. It is
proved equal to a specification function (`TopLevelFields`,
`FieldList.Itemize`, `FieldsFor`, `BelongsToFieldsFor`, `HasNFieldsFor`,
`FillValues`, `FoldRows`, `InsertColumns`, `UpdateStatement`, `RunJoins`,
`ArgList`). The properties are proved about those functions as lemmas.
`FieldList` and `SelectQuery` are classes, because the Go code updates
their fields in place: `Itemize` writes the `_related_to_` option into the
descriptors, and `Select`, `Join` and `Where` update the query.

Reflection is replaced by explicit data:
- A `FieldInfo` holds a descriptor's name, path, index path, tag options,
  parent path and Go type.
- A `GoType` is `Ptr`, `Slice`, `Array` or a named type of some kind.
- A `ModelRef` is the model passed in: a nil interface, or a value of some
  type that may be a nil pointer.

Two pieces of dmpr enter the model as parameters:
- The mapper's field list for a related type (`TypeMap`) is the function
  `describe`.
- `mergeFields`, which `All` calls on a repeated id (select.go:149), lies
  outside the modelled files. It is the function `merge`, and a `None`
  result is the merge error.

The keys of Go's field map arrive in some order. That order is a parameter
(a sequence of keys), and the properties proved about it hold for every
order.

## Model

| member | source | states |
|---|---|---|
| Reflect.Core | reflect.go:15-28 | what remains after stripping wrappers is never a pointer, slice or array, and a named type is its own core |
| Reflect.CoreType | reflect.go:15-28 | a nil type gives nil and only a nil type does; otherwise the result is a non-wrapper type, and a named type is returned as it is |
| Reflect.CoreTypeIgnoresWrappers | reflect.go:21-23 | adding a pointer, slice or array layer does not change the core type, and taking the core type twice is the same as once |
| Reflect.CoreTypeOf | reflect.go:15-28 | the unwrapping loop returns the core type of the model's type, and nil exactly for a nil model |
| Reflect.TableName | reflect.go:30-40 | fails with the invalid-type error exactly when the core type is nil or has an empty name; otherwise gives the pluralised lower-cased type name |
| Reflect.TopLevelFields | reflect.go:42-57 | the loop keeps exactly the descriptors the top-level filter accepts, in input order |
| Reflect.TopLevelFieldsKeep | reflect.go:46-55 | a descriptor is kept iff its path has no '.', or a '.' only at position 0, and its index is non-empty; the result is a subsequence of the input |
| Reflect.IsEmptyValue | reflect.go:60-83 | strings, slices, maps, bools, ints, uints, pointers, interfaces and Valuer structs are empty iff they equal their zero; arrays iff length 0; other structs never |
| FieldLists.QField | fieldlist.go:108-122 | no query field iff the options hold `relation` or `belongs`; otherwise key is the path, val is `:path`, eq is `path=:path`, options carried unchanged |
| FieldLists.BelongsPathsMembers | fieldlist.go:36-41 | the related paths are exactly the paths of the descriptors carrying `belongs` |
| FieldLists.ItemizeSelects | fields.go:63-94 | a descriptor is kept iff it is top-level or its parent path is a belongs path; kept ones stay in order, so there are never more items than descriptors; exactly the descriptors whose parent is a belongs path get `_related_to_` set to that parent |
| FieldLists.ImmediateParentOnly | fieldlist.go:44-56 | a field whose grandparent, not its parent, is a belongs field is dropped, while its parent is kept and tagged |
| FieldLists.TagIdempotent | fieldlist.go:44-52 | tagging twice is tagging once; tagging changes neither the path, the `belongs` option nor whether the field is kept |
| FieldLists.BelongsPathsOfTagged | fieldlist.go:37-50 | the tags Itemize writes do not change the set of related paths |
| FieldLists.ItemizeIdempotent | fieldlist.go:37-50 | running Itemize on its own tagged output gives the same descriptors and the same items |
| FieldLists.FieldList.constructor | fieldlist.go:12-15 | the list holds the given descriptors |
| FieldLists.FieldList.RelatedPaths | fieldlist.go:36-41 | the first loop of Itemize collects the paths of the `belongs` descriptors, in order |
| FieldLists.FieldList.Itemize | fieldlist.go:35-66 | the new descriptors are the tagged old ones, and the result is the items of the old list |
| FieldLists.FirstNamed | fields.go:192-197 | finds the first descriptor with the given name, or none exactly when no descriptor has it |
| FieldLists.FieldList.RelationField | fieldlist.go:80-86 | the inner loop returns the first descriptor whose name is the relation |
| FieldLists.FieldList.FirstMatch | fieldlist.go:76-78 | returns the first column still to do that matches the field by path or by path with its first '.' replaced by '_', or the end |
| FieldLists.WorklistStart | fieldlist.go:70-74 | at the start every column is on the worklist, unbound |
| FieldLists.BindStep | fieldlist.go:77-89 | binding a field to its first matching open column takes that column off the worklist and keeps the binding invariant |
| FieldLists.BindToDo | fieldlist.go:88 | removing the bound column keeps the worklist increasing and equal to the set of unbound columns |
| FieldLists.BindFirst | fieldlist.go:76-90 | a field takes the earliest open column it matches |
| FieldLists.BindMaximal | fieldlist.go:75-92 | no field left unused matches a column left unbound or a column bound to a later field, so each column goes to the earliest free field that matches it |
| FieldLists.SkipStep | fieldlist.go:75-92 | a field matching no open column leaves the binding unchanged |
| FieldLists.TraversalsStep | fieldlist.go:79-87 | a bound column gets the field's index path and, for a related field, the descriptor of its belongs struct |
| FieldLists.TraversalsBound | fieldlist.go:76-90 | every traversal is the empty one or the binding of a field whose path, or path with its first '.' replaced by '_', is the column |
| FieldLists.FieldList.TraversalsByName | fieldlist.go:69-105 | one traversal per column, in column order; each column bound to at most one field and each field to at most one column, by path match; unbound columns get an empty index |
| Fields.FieldsFor | fields.go:97-110 | the loop returns, without error, the query fields of the items |
| Fields.QueryFieldsAreColumns | fields.go:97-110 | the query fields are those of the items carrying none of `_related_to_`, `relation`, `belongs`, in input order, each built as QField builds it |
| Fields.BelongsToFieldsFor | fields.go:130-147 | the join text is `<table> <ref> ON (t1.<rel>_id=<ref>.id)`, with the select list below; a path too short to strip is a runtime panic |
| Fields.BelongsSelectsSpec | fields.go:134-145 | for each descriptor tagged `_related_to_=<rel>` and carrying neither `relation` nor `belongs`, in order, one entry `<ref>.<sub> AS <rel>_<sub>` with `<rel>.` stripped; it fails iff such a path is too short |
| Fields.BelongsSelectsSnoc | fields.go:135-145 | one more descriptor adds at most one entry at the end, and an earlier failure sticks |
| Fields.BelongsToExample | select_test.go:85-91 | the belongs-to test's descriptors select `t2.id AS sub_id` and `t2.name AS sub_name` only |
| Fields.HasNFieldsFor | fields.go:151-171 | the loop computes the has-N join: the unwrapped type's table, `ON (t1.id=<ref>.<stub>_id)`, one select per column |
| Fields.HasNSpec | fields.go:151-171 | fails, with the invalid-type error, exactly when the related type has no table name; otherwise one `<ref>.<key> AS <rel>_<key>` per column of the related type, in order |
| Fields.FirstItem | fields.go:114-115 | an item with the relation's name that no earlier item shares, or none exactly when no item has it |
| Fields.Related | fields.go:113-127 | what the relation lookup returns; stated by RelatedDispatch |
| Fields.RelatedFieldsFor | fields.go:113-127 | the loop dispatches as the relation function does |
| Fields.RelatedDispatch | fields.go:113-127 | "relation not found" exactly when no item has the relation's name; a first match carrying `relation` takes the has-N path with that option as the stub; any other first match fails with its type's table-name error, or else joins `<table> <ref> ON (t1.<rel>_id=<ref>.id)` with the belongs-to selects, failing only as a panic when a selected path is too short |
| Materialize.Fill | fields.go:222-228 | a nil pointer or nil map is replaced by an allocated one; anything else is left alone |
| Materialize.Alloc | fields.go:219-231 | walking an index path keeps the outermost struct's length and every field but the walked one, leaves the path reachable, and fails only as a runtime panic |
| Materialize.AllocLevel | fields.go:220-228 | the walked field becomes the walk of the rest of the path from that field, allocated first when nil; with Alloc's frame this holds level by level |
| Materialize.AllocNilFree | fields.go:219-231 | after the walk no nil pointer or nil map is left along the path |
| Materialize.AllocKeepsNilFree | fields.go:219-231 | a non-nil root stays non-nil |
| Materialize.AllocNilFreeNoop | fields.go:219-231 | on a path already free of nils the walk changes nothing |
| Materialize.AllocIdempotent | fields.go:219-231 | walking the same path twice is walking it once |
| Materialize.AllocKeepsOtherPaths | fields.go:219-231 | a walk along one path keeps any other path free of nils |
| Materialize.SlotsSpec | fields.go:240-251 | one slot per traversal; a discard placeholder exactly for an empty index; otherwise the field's address when ptrs is set and a copy when not; every walked path is free of nils |
| Materialize.SlotsCopies | fields.go:245-249 | without ptrs, the slot of a non-empty traversal is the value its path reaches right after that traversal's own walk |
| Materialize.SlotsErrors | fields.go:240-251 | the only failure inside the loop is a runtime panic |
| Materialize.FieldsByTraversalRefuses | fields.go:235-238 | "argument not a struct" exactly when the dereferenced value is not a struct |
| Materialize.FillValues | fields.go:234-253 | the loop fills the values slice as the traversal function says |
| Operators.Null | operator.go:44-51 | a NULL operator has its column as its one key, bound to nil |
| Operators.Lt | operator.go:89-92 | one key, the column, bound to the value (nil included) |
| Operators.Gt | operator.go:94-97 | one key, the column, bound to the value (nil included) |
| Operators.Le | operator.go:99-102 | one key, the column, bound to the value (nil included) |
| Operators.Ge | operator.go:104-107 | one key, the column, bound to the value (nil included) |
| Operators.Not | operator.go:154-161 | renders its operand with the flag flipped, and has its keys and values |
| Operators.Where | operator.go:55-225 | renders an operator tree; its cases are stated by NullWhere, EqualWhere, NotWhere, ComplementRelations, SingleItemGroup, GroupWhere, GroupSnoc and NestedGroupWhere |
| Operators.Keys | operator.go:29-31 | the parameter names in order; stated with Values by ValuesCoverKeys and KeysAllAppend |
| Operators.Values | operator.go:34-51 | the value bound to each key, nil for NULL; stated by ValuesCoverKeys and ValuesAllAppend |
| Operators.BinaryOp | operator.go:71-76 | a nil value gives `IS NULL`; otherwise a binary node with the given pair of relations |
| Operators.Eq | operator.go:115-123 | a nil value gives `IS NULL`; otherwise an equality node |
| Operators.NullWhere | operator.go:44-57 | renders `IS NULL` iff the value equals the truthy flag, else `IS NOT NULL`; its values map the column to nil |
| Operators.NilIsNull | operator.go:71-76 | Eq and BinaryOp with a nil value render `col IS NULL` |
| Operators.EqualWhere | operator.go:126-146 | scalar: `col = :col` or `col <> :col`; non-empty list: `col IN (:col)` or `col NOT IN (:col)`; empty list: empty text |
| Operators.NotWhere | operator.go:154-161 | Not renders its operand with the flag flipped, so a double negation renders as the operand; keys and values pass through |
| Operators.ComplementRelations | operator.go:89-106 | the falsy relation of Lt, Ge, Gt, Le is the truthy relation of Ge, Lt, Le, Gt |
| Operators.SingleItemGroup | operator.go:211-213 | a one-item group renders as its item with the same flag |
| Operators.GroupWhere | operator.go:206-225 | a group of several items, or none, renders falsy as `NOT (…)` around its truthy text, so the negation covers the whole group; an empty group renders empty |
| Operators.GroupPair | operator.go:210-221 | two items render as their clauses joined by the group's conjunction |
| Operators.GroupSnoc | operator.go:210-221 | one more item extends a group of at least two by the conjunction and that item's clause |
| Operators.NestedGroupWhere | operator.go:213-218 | a nested group is parenthesised inside its parent and a plain operator is not: `Or(And(a, b), c)` renders `(a AND b) OR c` |
| Operators.ValuesCoverKeys | operator.go:186-203 | the keys of an operator's values are exactly its keys |
| Operators.KeysAllAppend | operator.go:186-192 | group keys are the in-order concatenation of the items' keys |
| Operators.ValuesAllAppend | operator.go:195-203 | group values are the union of the items' values, later items overriding |
| Operators.And | operator.go:231-246 | a fresh AND group whose keys are the operands' keys in order and whose values are the operands' values |
| Operators.Or | operator.go:265-280 | a fresh OR group whose keys are the operands' keys in order and whose values are the operands' values |
| Operators.Add | operator.go:238-246 | appends the operands to the group, splicing in the items of an operand of the same group kind |
| Operators.SplicedKeys | operator.go:238-246 | splicing keeps the keys of the operands, in order |
| Operators.SplicedValues | operator.go:238-246 | splicing keeps the values of the operands |
| Operators.AddKeysValues | operator.go:181-183 | after Add, the keys are the old keys followed by the operands' keys and the values are the old values overridden by the operands' values |
| Operators.SplicedIsFlat | operator.go:272-280 | splicing flat groups into a group of the same kind leaves no nested group of that kind |
| Operators.FilterQueryExample | select_test.go:75-82 | `And(Eq(id, 3), Eq(extras, nil))` renders `id = :id AND extras IS NULL` with keys `[id, extras]` |
| Selects.SelectCheck | select.go:21-43 | accepts exactly a named model given as a non-nil pointer to a slice; the table-name error comes first; past it, a non-pointer is pointer expected, a nil pointer is nil pointer, and a pointer to a non-slice is slice expected |
| Selects.SelectCheckExamples | select_test.go:51-60 | a nil model and an anonymous struct are invalid types; the other three misuses get their own errors |
| Selects.NewSelect | select.go:21-43 | fails with the check's error exactly when the check refuses; otherwise a fresh query on the model with nothing selected, joined or filtered |
| Selects.SelectQuery.constructor | select.go:39-42 | a new query has no selectors, joins or filter |
| Selects.SelectQuery.Select | select.go:47-53 | appends the selectors; joins and filter unchanged |
| Selects.SelectQuery.Join | select.go:80-86 | appends the joins; selectors and filter unchanged |
| Selects.SelectQuery.Where | select.go:90-97 | the filter becomes the operator, or the previous filter and-ed with it |
| Selects.ConjoinKeysValues | select.go:90-97 | a second Where orders keys as the previous filter's then the new one's, and the new values override |
| Selects.FilterQueryWhere | select_test.go:75-82 | two Where calls give ` WHERE id = :id AND extras IS NULL` with args `[3, nil]` |
| Selects.AliasDistinct | select.go:214 | the aliases `t2, t3, …` of different joins differ |
| Selects.RunJoins | select.go:211-223 | the loop computes the joins as the join function does |
| Selects.HandleJoinsOk | select.go:213-221 | succeeds iff every join resolves |
| Selects.HandleJoinsSpec | select.go:211-223 | join i is resolved under alias `t<i+2>`; the join texts are in request order and the select lists are concatenated in that order |
| Selects.HandleJoinsFirstError | select.go:215-218 | a failure is the error of the first join that fails |
| Selects.DefaultSelectsAreColumns | select.go:177-179 | the default projection is `t1.<key>` for each column of the model, in order |
| Selects.Args | select.go:194-202 | no filter, no args; otherwise one arg per key |
| Selects.ArgsAreValues | select.go:198-201 | arg i is the value of key i |
| Selects.ArgList | select.go:195-202 | the loop collects the args in key order |
| Selects.SelectorSpec | select.go:163-209 | fails iff the table name fails or a default projection has a failing join; an explicit selection is used verbatim, from `<table> t1` only, with no joins; a default projection starts with the model's columns; args are the filter's values in key order |
| Selects.SelectorDefault | select.go:172-208 | without a Select list the statement is `SELECT <model columns as t1.<key>, then the joins' selects> FROM <table> t1 LEFT JOIN <join> …` followed by the WHERE clause |
| Selects.SelectedFieldsExample | select_test.go:66-72 | an explicit `id, extras` selection gives `SELECT id, extras FROM <table> t1` whatever joins were asked for |
| Selects.SelectQuery.AllSelector | select.go:163-209 | builds the statement the selector function describes |
| Rows.IdColumn | select.go:123-129 | the position of the first `id` column, or none exactly when there is none |
| Rows.StepGood | select.go:143-158 | one row keeps the bookkeeping invariant; only a failed merge fails |
| Rows.FoldGood | select.go:131-158 | over all rows, the bookkeeping invariant holds and only a failed merge fails |
| Rows.AllRowsSpec | select.go:131-158 | the existing elements are kept; one element is appended per row whose id was unseen or that has no id; no id is appended twice; every id seen is appended |
| Rows.AllRowsWithoutId | select.go:143-157 | with no id column every row is appended |
| Rows.AllRowsContents | select.go:131-158 | behind the previous contents, the k-th appended row becomes its own entity when it has no id, and otherwise the merge, in row order and older first, of every entity with its id; All fails exactly when one of those merges fails |
| Rows.FoldContents | select.go:143-157 | the loop keeps the contents invariant: each appended element is the merge of its id's members so far |
| Rows.FoldFails | select.go:147-150 | a failing loop leaves an id whose members do not merge |
| Rows.AllAsWritten | select.go:131-158 | the loop as written, rowNum starting at 0; shown wrong by AllAsWrittenMergesIntoOldElement |
| Rows.AllRows | select.go:131-158 | the loop with rowNum starting at the slice's length; stated by AllRowsSpec and AllRowsContents |
| Rows.AllAsWrittenOnEmpty | select.go:131-158 | on an empty destination slice the code as written and the corrected fold agree |
| Rows.AllAsWrittenMergesIntoOldElement | select.go:132-157 | on a destination with one element, a repeated id merges into that old element instead of the row it first appeared in |
| Rows.FoldRows | select.go:131-158 | the loop computes the corrected fold |
| Queries.CreateSpec | queries.go:62-80 | the columns are the keys other than `id`, `-` and dotted keys; `created_at` gets `NOW()` and every other column `:<name>` |
| Queries.InsertSql | queries.go:78-88 | "nothing to create" iff no key is insertable; otherwise the statement ends in ` RETURNING id` iff an `id` key is present |
| Queries.Create | queries.go:52-88 | fails with the table-name error when there is no table, then with "nothing to create" when no key is insertable, and only then |
| Queries.InsertColumns | queries.go:62-77 | the loop collects the columns and aligned values, and the id and created_at flags |
| Queries.CreateStatement | queries.go:52-88 | builds the statement Create describes |
| Queries.CreateExample | queries.go:52-88 | keys `id, name, extra, created_at` give `INSERT INTO t (name, extra, created_at) VALUES (:name, :extra, NOW()) RETURNING id` |
| Queries.AssignmentsSpec | queries.go:115-122 | one `<k>=:<k>` per key other than `id`, in order |
| Queries.UpdateSql | queries.go:114-138 | "no ID field found" when there is no `id` key, else "nothing to create" when `id` is the only key, and only then; the statement selects its row by `WHERE id=:id` |
| Queries.Update | queries.go:107-138 | fails with the table-name error first, then as UpdateSql does |
| Queries.UpdateStatement | queries.go:107-135 | the loop builds the statement Update describes |
| Queries.Find | queries.go:14-24 | fails, with the table-name error, exactly when the model has no table |
| Queries.FindBy | queries.go:27-37 | fails, with the table-name error, exactly when the model has no table |
| Queries.All | queries.go:40-49 | fails, with the table-name error, exactly when the model has no table |
| Queries.Delete | queries.go:142-155 | fails, with the table-name error, exactly when the model has no table |

## Left out

- Execution is left out: opening connections, running statements, scanning rows, `rows.Err`, logging hooks. The statement text and the row bookkeeping are modelled; a scanned row is an input.
- Go reflection and sqlx's `reflectx` are replaced by explicit descriptors and types, and the `TypeMap`/`FieldMap`/`TypeOf` wrappers are not part of this model.
- `flect.Pluralize` is not part of this model. `Pluralize` is a stand-in (it appends `s`), and no contract depends on its text.
- `tableNameByType` and `deref` lie outside the modelled files. The model takes `TableNameByType` to apply the `tableName` rules to a type, and `Deref` to strip one pointer layer.
- The exact table-name text is left out. The tests expect underscored names that lower-casing does not produce.
- `mergeFields` lies outside the modelled files. The model takes it as the parameter `merge`, and a failed merge as an error.
- Map iteration order in `Create` and `Update` is a parameter (the key sequence).
- Operators.Add: operators are values, so `Add` returns the new group instead of updating `op.items` in place; aliasing between groups is not modelled.
- Materialize.Alloc: the value tree is rebuilt and returned instead of updated in place. Allocation before a panic is not kept, because the model stops at the panic.
- Materialize.FillValues: returns the filled slots instead of writing into a caller's slice. Slots written before a panic are not kept.
- Rows.FoldRows: elements appended before a failing merge are not kept, because the result is an error.
- The debug `Printf` of unbound columns in `TraversalsByName` is left out (output only).
- The float branch of `isEmptyValue` is left out (floating point). So is the call of a `driver.Valuer`'s `Value()`: its nil-ness is a field of the value.
- Many-to-many joins are only described in a comment, so they are left out.
- The `hasCreatedAt` write of the current time after an insert is left out (clock), as is the `RETURNING id` scan.
- Error wrapping with `errors.Wrap` is left out; the model keeps the underlying error.
- `select.go` calls `fl.FieldsFor()`, `fl.TraversalsByName` (with an error result) and `fields.Map` as methods, while `fields.go` and `fieldlist.go` define `FieldsFor`, `TraversalsByName` and `fieldsByTraversal` with other receivers and results. The model treats the calls as calls of those definitions.
- `allSelector` appends the join text of each relation as one entry. `RelatedFieldsFor` returns a single string where `handleJoins` expects a list, and the model uses one entry per join.
- `Find`'s statement follows the code (`WHERE id = ?`), not the test's `$1`.
- Tests written against other signatures (`Where()` with no flag, `allSelector()` with no list, `fieldsFor`) are left out, as are the `omitempty` and `updated_at` rules some tests expect. The code does not implement them.
- Nested fields whose parent is not a belongs field are dropped by `Itemize`; the code writes no `_unrelated_` tag for them, so none is modelled.
- The Go integer width of ids is not modelled; ids are unbounded integers.

## Findings

| source | as written | input that shows it | evidently intended | confidence | as-written member | corrected member |
|---|---|---|---|---|---|---|
| select.go:132-157 | `rowNum` starts at 0 and counts appended rows, but rows are appended after whatever the destination slice already holds, so `index[id]` points at the wrong element | a destination slice holding one element, then rows with ids 1 and 1: the second row is merged into the old element, not into the first row | the index records the appended row's position in the slice, i.e. counting starts at the slice's length | not executed | Rows.AllAsWritten (shown by Rows.AllAsWrittenMergesIntoOldElement) | Rows.AllRows (proved by Rows.AllRowsSpec and Rows.AllRowsContents, computed by Rows.FoldRows) |
