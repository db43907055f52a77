/** The field list of a model type (fieldlist.go, and the same functions in
    fields.go): itemizing sqlx's descriptors into the fields a query can use,
    the query fragments of one field, and the binding of result columns to
    field slots. */
module FieldLists {
  import opened Base
  import opened Reflect

  /** Option the library adds to every sub-field of a belongs-to struct. */
  const OptRelatedTo: string := "_related_to_"
  /** Tag option marking a belongs-to relation. */
  const OptBelongs: string := "belongs"
  /** Tag option marking a has-one or has-many relation. */
  const OptRelation: string := "relation"

  /** FieldListItem: one field as the query builders see it. */
  datatype Item = Item(path: string, options: map<string, string>, ty: GoType)

  /** queryField: the three fragments of a column, for SELECT, INSERT and UPDATE. */
  datatype QueryField = QueryField(key: string, val: string, eq: string, opts: map<string, string>)

  /** FieldListItem.QField: no query field for a relation or belongs-to marker. */
  function QField(it: Item): (r: Option<QueryField>)
    ensures r.None? <==> OptRelation in it.options || OptBelongs in it.options
    ensures r.Some? ==> r.value.key == it.path && r.value.opts == it.options
    ensures r.Some? ==> r.value.val == ":" + it.path && r.value.eq == it.path + "=:" + it.path
  {
    var val := ":" + it.path;
    if OptRelation in it.options || OptBelongs in it.options then None
    else Some(QueryField(it.path, val, it.path + "=" + val, it.options))
  }

  // ---------------------------------------------------------------------
  // Itemize, as a specification

  /** The paths of the fields marked belongs, in order (Itemize's `related`). */
  function BelongsPaths(fs: seq<FieldInfo>): seq<string>
  {
    if |fs| == 0 then []
    else
      var last := fs[|fs| - 1];
      BelongsPaths(fs[..|fs| - 1]) + (if OptBelongs in last.options then [last.path] else [])
  }

  /** The belongs-to paths are exactly the paths of the fields tagged belongs. */
  lemma {:induction false} BelongsPathsMembers(fs: seq<FieldInfo>)
    ensures forall p :: p in BelongsPaths(fs) <==> exists fi :: fi in fs && OptBelongs in fi.options && fi.path == p
  {
    if |fs| > 0 {
      var init := fs[..|fs| - 1];
      BelongsPathsMembers(init);
      assert fs == init + [fs[|fs| - 1]];
    }
  }

  /** A field survives Itemize when it is top level or its direct parent is a belongs-to field. */
  predicate Kept(fi: FieldInfo, related: seq<string>)
  {
    fi.parent.None? || fi.parent.value in related
  }

  /** The one change Itemize makes to a descriptor: a surviving sub-field is tagged with its parent's path. */
  function Tag(fi: FieldInfo, related: seq<string>): FieldInfo
  {
    if fi.parent.Some? && fi.parent.value in related
    then fi.(options := fi.options[OptRelatedTo := fi.parent.value])
    else fi
  }

  function TagAll(fs: seq<FieldInfo>, related: seq<string>): (r: seq<FieldInfo>)
    ensures |r| == |fs|
  {
    seq(|fs|, k requires 0 <= k < |fs| => Tag(fs[k], related))
  }

  function ItemOf(fi: FieldInfo): Item
  {
    Item(fi.path, fi.options, fi.ty)
  }

  /** The items of the surviving, tagged fields, in order. */
  function ItemsWith(fs: seq<FieldInfo>, related: seq<string>): seq<Item>
  {
    if |fs| == 0 then []
    else
      var last := fs[|fs| - 1];
      ItemsWith(fs[..|fs| - 1], related) + (if Kept(last, related) then [ItemOf(Tag(last, related))] else [])
  }

  /** The positions of the surviving fields, in increasing order. */
  function KeptIndices(fs: seq<FieldInfo>, related: seq<string>): seq<nat>
  {
    if |fs| == 0 then []
    else KeptIndices(fs[..|fs| - 1], related) + (if Kept(fs[|fs| - 1], related) then [|fs| - 1] else [])
  }

  /** The descriptors after Itemize. */
  function Tagged(fs: seq<FieldInfo>): seq<FieldInfo>
  {
    TagAll(fs, BelongsPaths(fs))
  }

  /** The items Itemize returns. */
  function Items(fs: seq<FieldInfo>): seq<Item>
  {
    ItemsWith(fs, BelongsPaths(fs))
  }

  lemma {:induction false} ItemsWithIndices(fs: seq<FieldInfo>, related: seq<string>)
    ensures |ItemsWith(fs, related)| == |KeptIndices(fs, related)|
    ensures forall m :: 0 <= m < |KeptIndices(fs, related)| ==>
      KeptIndices(fs, related)[m] < |fs| &&
      ItemsWith(fs, related)[m] == ItemOf(Tag(fs[KeptIndices(fs, related)[m]], related))
    ensures forall m, m' :: 0 <= m < m' < |KeptIndices(fs, related)| ==>
      KeptIndices(fs, related)[m] < KeptIndices(fs, related)[m']
    ensures forall k :: 0 <= k < |fs| ==> (k in KeptIndices(fs, related) <==> Kept(fs[k], related))
  {
    KeptIndicesSpec(fs, related);
    ItemsWithLength(fs, related);
    forall m | 0 <= m < |KeptIndices(fs, related)|
      ensures KeptIndices(fs, related)[m] < |fs|
      ensures ItemsWith(fs, related)[m] == ItemOf(Tag(fs[KeptIndices(fs, related)[m]], related))
    {
      ItemAt(fs, related, m);
    }
  }

  lemma {:induction false} ItemsWithLength(fs: seq<FieldInfo>, related: seq<string>)
    ensures |ItemsWith(fs, related)| == |KeptIndices(fs, related)|
  {
    if |fs| > 0 {
      ItemsWithLength(fs[..|fs| - 1], related);
    }
  }

  /** The m-th item is the tagged descriptor at the m-th kept position. */
  lemma {:induction false} ItemAt(fs: seq<FieldInfo>, related: seq<string>, m: nat)
    requires m < |KeptIndices(fs, related)|
    ensures KeptIndices(fs, related)[m] < |fs|
    ensures m < |ItemsWith(fs, related)|
    ensures ItemsWith(fs, related)[m] == ItemOf(Tag(fs[KeptIndices(fs, related)[m]], related))
  {
    var init, last := fs[..|fs| - 1], fs[|fs| - 1];
    ItemsWithLength(init, related);
    var ks, items := KeptIndices(init, related), ItemsWith(init, related);
    assert KeptIndices(fs, related) == ks + (if Kept(last, related) then [|fs| - 1] else []);
    assert ItemsWith(fs, related) == items + (if Kept(last, related) then [ItemOf(Tag(last, related))] else []);
    if m < |ks| {
      ItemAt(init, related, m);
      assert fs[ks[m]] == init[ks[m]];
    }
  }

  /** The positions KeptIndices lists are in range, strictly increasing, and
      exactly those of the surviving fields. */
  lemma {:induction false} KeptIndicesSpec(fs: seq<FieldInfo>, related: seq<string>)
    ensures forall m :: 0 <= m < |KeptIndices(fs, related)| ==> KeptIndices(fs, related)[m] < |fs|
    ensures forall m, m' :: 0 <= m < m' < |KeptIndices(fs, related)| ==>
      KeptIndices(fs, related)[m] < KeptIndices(fs, related)[m']
    ensures forall k :: 0 <= k < |fs| ==> (k in KeptIndices(fs, related) <==> Kept(fs[k], related))
  {
    if |fs| > 0 {
      var init := fs[..|fs| - 1];
      KeptIndicesSpec(init, related);
      assert KeptIndices(fs, related) ==
        KeptIndices(init, related) + (if Kept(fs[|fs| - 1], related) then [|fs| - 1] else []);
      forall k | 0 <= k < |init| ensures fs[k] == init[k] { }
    }
  }

  /** Itemize keeps every top-level field; it keeps a nested field exactly
      when its direct parent's path is the path of a belongs-to field, and then
      tags it with `_related_to_` = that path; it keeps the survivors' order,
      so it never returns more items than there are descriptors. */
  lemma ItemizeSelects(fs: seq<FieldInfo>)
    ensures var ks := KeptIndices(fs, BelongsPaths(fs));
      && |Items(fs)| == |ks| <= |fs|
      && (forall m, m' :: 0 <= m < m' < |ks| ==> ks[m] < ks[m'])
      && (forall k :: 0 <= k < |fs| ==>
            (k in ks <==> fs[k].parent.None? || fs[k].parent.value in BelongsPaths(fs)))
      && (forall m :: 0 <= m < |ks| ==> ks[m] < |fs| && Items(fs)[m] == ItemOf(Tagged(fs)[ks[m]]))
    ensures forall k :: 0 <= k < |fs| ==> (Tagged(fs)[k] ==
      if fs[k].parent.Some? && fs[k].parent.value in BelongsPaths(fs)
      then fs[k].(options := fs[k].options[OptRelatedTo := fs[k].parent.value])
      else fs[k])
  {
    var related := BelongsPaths(fs);
    var ks := KeptIndices(fs, related);
    ItemsWithIndices(fs, related);
    StrictlyIncreasingBounded(ks, |fs|);
  }

  lemma {:induction false} StrictlyIncreasingBounded(ks: seq<nat>, n: nat)
    requires forall m :: 0 <= m < |ks| ==> ks[m] < n
    requires forall m, m' :: 0 <= m < m' < |ks| ==> ks[m] < ks[m']
    ensures |ks| <= n
  {
    if |ks| > 0 {
      var init := ks[..|ks| - 1];
      assert forall m :: 0 <= m < |init| ==> init[m] < ks[|ks| - 1];
      StrictlyIncreasingBounded(init, ks[|ks| - 1]);
    }
  }

  /** Tagging changes nothing but `_related_to_`, and tagging twice is tagging once. */
  lemma TagIdempotent(fi: FieldInfo, related: seq<string>)
    ensures Tag(Tag(fi, related), related) == Tag(fi, related)
    ensures Kept(Tag(fi, related), related) == Kept(fi, related)
    ensures OptBelongs in Tag(fi, related).options <==> OptBelongs in fi.options
    ensures Tag(fi, related).path == fi.path
  {
    if fi.parent.Some? && fi.parent.value in related {
      var p := fi.parent.value;
      assert fi.options[OptRelatedTo := p][OptRelatedTo := p] == fi.options[OptRelatedTo := p];
      assert OptBelongs != OptRelatedTo by { assert OptBelongs[0] != OptRelatedTo[0]; }
    }
  }

  lemma TagAllSnoc(fs: seq<FieldInfo>, related: seq<string>, k: nat)
    requires k < |fs|
    ensures TagAll(fs[..k + 1], related) == TagAll(fs[..k], related) + [Tag(fs[k], related)]
  {
  }

  lemma {:induction false} BelongsPathsOfTagged(fs: seq<FieldInfo>, related: seq<string>)
    ensures BelongsPaths(TagAll(fs, related)) == BelongsPaths(fs)
  {
    if |fs| > 0 {
      var init := fs[..|fs| - 1];
      BelongsPathsOfTagged(init, related);
      TagIdempotent(fs[|fs| - 1], related);
      assert TagAll(fs, related)[..|fs| - 1] == TagAll(init, related);
    }
  }

  lemma {:induction false} ItemsWithOfTagged(fs: seq<FieldInfo>, related: seq<string>)
    ensures ItemsWith(TagAll(fs, related), related) == ItemsWith(fs, related)
  {
    if |fs| > 0 {
      var init := fs[..|fs| - 1];
      ItemsWithOfTagged(init, related);
      TagIdempotent(fs[|fs| - 1], related);
      assert TagAll(fs, related)[..|fs| - 1] == TagAll(init, related);
    }
  }

  /** Itemize is idempotent: run again on the descriptors it tagged, it
      computes the same belongs-to paths, makes no further change and returns
      the same items. */
  lemma ItemizeIdempotent(fs: seq<FieldInfo>)
    ensures BelongsPaths(Tagged(fs)) == BelongsPaths(fs)
    ensures Tagged(Tagged(fs)) == Tagged(fs)
    ensures Items(Tagged(fs)) == Items(fs)
  {
    var related := BelongsPaths(fs);
    BelongsPathsOfTagged(fs, related);
    ItemsWithOfTagged(fs, related);
    forall k | 0 <= k < |fs| ensures TagAll(TagAll(fs, related), related)[k] == TagAll(fs, related)[k] {
      TagIdempotent(fs[k], related);
    }
  }

  /** Only the direct parent counts: a field whose parent is a plain
      embedded struct is dropped even when that struct sits inside a
      belongs-to field, while the embedded struct itself survives. */
  lemma ImmediateParentOnly(t: GoType)
    ensures var sub := FieldInfo("sub", "sub", [0], map[OptBelongs := ""], None, t);
      var inner := FieldInfo("inner", "sub.inner", [0, 0], map[], Some("sub"), t);
      var leaf := FieldInfo("x", "sub.inner.x", [0, 0, 0], map[], Some("sub.inner"), t);
      Items([sub, inner, leaf]) ==
        [ItemOf(sub), Item("sub.inner", map[OptRelatedTo := "sub"], t)]
  {
    var sub := FieldInfo("sub", "sub", [0], map[OptBelongs := ""], None, t);
    var inner := FieldInfo("inner", "sub.inner", [0, 0], map[], Some("sub"), t);
    var leaf := FieldInfo("x", "sub.inner.x", [0, 0, 0], map[], Some("sub.inner"), t);
    var fs := [sub, inner, leaf];
    assert fs[..2] == [sub, inner] && [sub, inner][..1] == [sub] && [sub][..0] == [];
    assert BelongsPaths([sub]) == ["sub"];
    assert BelongsPaths([sub, inner]) == ["sub"];
    assert BelongsPaths(fs) == ["sub"];
    assert "sub.inner" !in ["sub"] by { assert |"sub.inner"| != |"sub"|; }
    assert ItemsWith([sub], ["sub"]) == [ItemOf(sub)];
    assert ItemsWith([sub, inner], ["sub"]) == [ItemOf(sub), Item("sub.inner", map[OptRelatedTo := "sub"], t)];
  }

  // ---------------------------------------------------------------------
  // Column traversal

  /** traversal: where the value of one result column goes. An empty index
      means the column is discarded. */
  datatype Traversal = Traversal(name: string, index: seq<nat>, relation: Option<FieldInfo>)

  const Unbound: Traversal := Traversal("", [], None)

  /** A column names a field by its path, or by its path with the first '.' replaced by '_'. */
  predicate Matches(fi: FieldInfo, column: string)
  {
    fi.path == column || ReplaceFirst(fi.path, '.', '_') == column
  }

  /** The first descriptor with the given (own) name. */
  function FirstNamed(fs: seq<FieldInfo>, name: string): (r: Option<FieldInfo>)
    ensures r.None? <==> forall k :: 0 <= k < |fs| ==> fs[k].name != name
    ensures r.Some? ==> r.value.name == name
    ensures r.Some? ==> exists k :: (0 <= k < |fs| && fs[k] == r.value &&
      forall k' :: 0 <= k' < k ==> fs[k'].name != name)
  {
    if |fs| == 0 then None
    else if fs[0].name == name then Some(fs[0])
    else
      var r := FirstNamed(fs[1..], name);
      assert forall k :: 1 <= k < |fs| ==> fs[k] == fs[1..][k - 1];
      r
  }

  /** The traversal for a column bound to a field: the field's index path,
      and for a sub-field of a belongs-to struct the descriptor of that struct. */
  function Binding(fs: seq<FieldInfo>, fi: FieldInfo, column: string): Traversal
  {
    Traversal(column, fi.index,
      if OptRelatedTo in fi.options then FirstNamed(fs, fi.options[OptRelatedTo]) else None)
  }

  ghost predicate Unused(binder: seq<int>, f: int)
  {
    forall d :: 0 <= d < |binder| ==> binder[d] != f
  }

  ghost predicate Increasing(s: seq<nat>)
  {
    forall a, b :: 0 <= a < b < |s| ==> s[a] < s[b]
  }

  /** How the first j fields are bound to columns: binder[c] is the
      position of the field bound to column c, or -1. Each column is bound to
      at most one field and each field to at most one column; a bound column
      names its field; a field took the first column it matched among those
      still unbound; and a field left unused matches no column left unbound
      and no column bound to a later field, so a column goes to the earliest
      field that matches it and is not taken by an earlier column. */
  ghost predicate Binds(fields: seq<FieldInfo>, columns: seq<string>, j: nat, binder: seq<int>)
  {
    && j <= |fields|
    && |binder| == |columns|
    && (forall c :: 0 <= c < |columns| ==> -1 <= binder[c] < j)
    && (forall c :: 0 <= c < |columns| && binder[c] >= 0 ==> Matches(fields[binder[c]], columns[c]))
    && (forall c, d :: 0 <= c < d < |columns| && binder[c] >= 0 ==> binder[c] != binder[d])
    && (forall c, c' :: (0 <= c' < c < |columns| && binder[c] >= 0 &&
          Matches(fields[binder[c]], columns[c'])) ==> 0 <= binder[c'] < binder[c])
    && (forall f, c :: (0 <= f < j && 0 <= c < |columns| && (binder[c] == -1 || f < binder[c]) &&
          Unused(binder, f)) ==> !Matches(fields[f], columns[c]))
  }

  /** The state of TraversalsByName's worklist after the first j fields:
      the binding so far, and toDo holding, in increasing order, exactly the
      columns still unbound. */
  ghost predicate Worklist(fields: seq<FieldInfo>, columns: seq<string>, j: nat,
                           toDo: seq<nat>, binder: seq<int>)
  {
    && Binds(fields, columns, j, binder)
    && Increasing(toDo)
    && (forall a :: 0 <= a < |toDo| ==> toDo[a] < |columns|)
    && (forall c :: 0 <= c < |columns| ==> (c in toDo <==> binder[c] == -1))
  }

  /** One traversal per column: the empty traversal for an unbound column,
      the bound field's traversal otherwise. */
  ghost predicate TraversalsOf(fields: seq<FieldInfo>, columns: seq<string>, binder: seq<int>,
                               travs: seq<Traversal>)
  {
    && |travs| == |columns| == |binder|
    && forall c :: 0 <= c < |columns| ==> (travs[c] ==
         if 0 <= binder[c] < |fields| then Binding(fields, fields[binder[c]], columns[c]) else Unbound)
  }

  /** Every traversal is either the empty one or the binding of a field
      whose path names the column. */
  lemma TraversalsBound(fields: seq<FieldInfo>, columns: seq<string>, binder: seq<int>,
                        travs: seq<Traversal>)
    requires Binds(fields, columns, |fields|, binder)
    requires TraversalsOf(fields, columns, binder, travs)
    ensures |travs| == |columns|
    ensures forall c :: 0 <= c < |columns| ==> (travs[c] == Unbound ||
      exists j :: (0 <= j < |fields| && Matches(fields[j], columns[c]) &&
        travs[c] == Binding(fields, fields[j], columns[c])))
  {
    forall c | 0 <= c < |columns| && travs[c] != Unbound
      ensures exists j :: (0 <= j < |fields| && Matches(fields[j], columns[c]) &&
        travs[c] == Binding(fields, fields[j], columns[c]))
    {
      var j := binder[c];
      assert 0 <= j < |fields| && Matches(fields[j], columns[c]);
    }
  }

  /** Before any field is looked at, every column is on the worklist and unbound. */
  lemma WorklistStart(fields: seq<FieldInfo>, columns: seq<string>, toDo: seq<nat>)
    requires |toDo| == |columns| && forall k :: 0 <= k < |toDo| ==> toDo[k] == k
    ensures Worklist(fields, columns, 0, toDo, seq(|columns|, _ => -1))
  {
    forall c | 0 <= c < |columns| ensures c in toDo {
      assert toDo[c] == c;
    }
  }

  /** Binding column c to field j sets that column's traversal and no other. */
  lemma TraversalsStep(fields: seq<FieldInfo>, columns: seq<string>, binder: seq<int>,
                       travs: seq<Traversal>, c: nat, j: nat)
    requires TraversalsOf(fields, columns, binder, travs)
    requires c < |columns| && j < |fields|
    ensures TraversalsOf(fields, columns, binder[c := j],
      travs[c := Binding(fields, fields[j], columns[c])])
  {
  }

  /** Field j takes the num-th entry of the worklist, the first one it matches. */
  lemma BindStep(fields: seq<FieldInfo>, columns: seq<string>, j: nat,
                 toDo: seq<nat>, binder: seq<int>, num: nat)
    requires Worklist(fields, columns, j, toDo, binder)
    requires j < |fields| && num < |toDo| && Matches(fields[j], columns[toDo[num]])
    requires forall k :: 0 <= k < num ==> !Matches(fields[j], columns[toDo[k]])
    ensures Worklist(fields, columns, j + 1, toDo[..num] + toDo[num + 1..], binder[toDo[num] := j])
  {
    BindToDo(columns, j, toDo, binder, num);
    BindFirst(fields, columns, j, toDo, binder, num);
    BindMaximal(fields, columns, j, toDo, binder, num);
  }

  /** Removing the bound column keeps the worklist exactly the unbound columns, in order. */
  lemma BindToDo(columns: seq<string>, j: nat, toDo: seq<nat>, binder: seq<int>, num: nat)
    requires |binder| == |columns| && num < |toDo|
    requires Increasing(toDo)
    requires forall a :: 0 <= a < |toDo| ==> toDo[a] < |columns|
    requires forall c :: 0 <= c < |columns| ==> (c in toDo <==> binder[c] == -1)
    ensures var toDo' := toDo[..num] + toDo[num + 1..];
      var binder' := binder[toDo[num] := j];
      && Increasing(toDo')
      && (forall a :: 0 <= a < |toDo'| ==> toDo'[a] < |columns|)
      && (forall c :: 0 <= c < |columns| ==> (c in toDo' <==> binder'[c] == -1))
  {
    var c0 := toDo[num];
    var toDo' := toDo[..num] + toDo[num + 1..];
    var binder' := binder[c0 := j];
    assert forall a :: 0 <= a < |toDo'| ==> toDo'[a] == if a < num then toDo[a] else toDo[a + 1];
    forall c | 0 <= c < |columns| ensures c in toDo' <==> binder'[c] == -1 {
      if c in toDo' {
        var a :| 0 <= a < |toDo'| && toDo'[a] == c;
        assert c != c0;
      }
      if c != c0 && c in toDo {
        var a :| 0 <= a < |toDo| && toDo[a] == c;
        assert a != num;
        assert c == toDo'[if a < num then a else a - 1];
      }
    }
  }

  /** The newly bound column is the first unbound one field j matches, so
      every earlier column field j matches was already bound to an earlier field. */
  lemma BindFirst(fields: seq<FieldInfo>, columns: seq<string>, j: nat,
                  toDo: seq<nat>, binder: seq<int>, num: nat)
    requires Worklist(fields, columns, j, toDo, binder)
    requires j < |fields| && num < |toDo|
    requires forall k :: 0 <= k < num ==> !Matches(fields[j], columns[toDo[k]])
    ensures var binder' := binder[toDo[num] := j];
      forall c, c' :: (0 <= c' < c < |columns| && binder'[c] >= 0 &&
        Matches(fields[binder'[c]], columns[c'])) ==> 0 <= binder'[c'] < binder'[c]
  {
    var c0 := toDo[num];
    var binder' := binder[c0 := j];
    forall c, c' | (0 <= c' < c < |columns| && binder'[c] >= 0 && Matches(fields[binder'[c]], columns[c']))
      ensures 0 <= binder'[c'] < binder'[c]
    {
      if c == c0 && binder[c'] == -1 {
        assert false;
      }
    }
  }

  /** Binding field j leaves every other unused field and unbound column as they were. */
  lemma BindMaximal(fields: seq<FieldInfo>, columns: seq<string>, j: nat,
                    toDo: seq<nat>, binder: seq<int>, num: nat)
    requires Worklist(fields, columns, j, toDo, binder)
    requires j < |fields| && num < |toDo|
    ensures var binder' := binder[toDo[num] := j];
      forall f, c :: (0 <= f < j + 1 && 0 <= c < |columns| && (binder'[c] == -1 || f < binder'[c]) &&
        Unused(binder', f)) ==> !Matches(fields[f], columns[c])
  {
    var c0 := toDo[num];
    var binder' := binder[c0 := j];
    forall f, c | (0 <= f < j + 1 && 0 <= c < |columns| && (binder'[c] == -1 || f < binder'[c]) &&
        Unused(binder', f))
      ensures !Matches(fields[f], columns[c])
    {
      assert binder'[c0] == j;
      assert Unused(binder, f) by {
        forall d | 0 <= d < |binder| ensures binder[d] != f {
          assert binder'[d] != f;
        }
      }
    }
  }

  /** Field j matches no column of the worklist and stays unused. */
  lemma SkipStep(fields: seq<FieldInfo>, columns: seq<string>, j: nat,
                 toDo: seq<nat>, binder: seq<int>)
    requires Worklist(fields, columns, j, toDo, binder)
    requires j < |fields|
    requires forall k :: 0 <= k < |toDo| ==> !Matches(fields[j], columns[toDo[k]])
    ensures Worklist(fields, columns, j + 1, toDo, binder)
  {
    forall f, c | (0 <= f < j + 1 && 0 <= c < |columns| && (binder[c] == -1 || f < binder[c]) &&
        Unused(binder, f))
      ensures !Matches(fields[f], columns[c])
    {
      if f == j {
        var k :| 0 <= k < |toDo| && toDo[k] == c;
      }
    }
  }

  class FieldList {
    var fields: seq<FieldInfo>

    constructor (fields: seq<FieldInfo>)
      ensures this.fields == fields
    {
      this.fields := fields;
    }

    /** The first loop of Itemize: the paths of the belongs-to fields. */
    method RelatedPaths() returns (related: seq<string>)
      ensures related == BelongsPaths(fields)
    {
      related := [];
      var i := 0;
      while i < |fields|
        invariant 0 <= i <= |fields|
        invariant related == BelongsPaths(fields[..i])
      {
        assert fields[..i + 1][..i] == fields[..i];
        if OptBelongs in fields[i].options {
          related := related + [fields[i].path];
        }
        i := i + 1;
      }
      assert fields[..i] == fields;
    }

    /** The scan of Itemize for a parent path among the belongs-to paths. */
    static method Contains(related: seq<string>, path: string) returns (found: bool)
      ensures found <==> path in related
    {
      found := false;
      var j := 0;
      while j < |related|
        invariant 0 <= j <= |related|
        invariant forall k :: 0 <= k < j ==> related[k] != path
      {
        if path == related[j] {
          return true;
        }
        j := j + 1;
      }
    }

    /** Itemize: collects the belongs-to paths, tags each surviving sub-field in
        place with `_related_to_`, and returns the surviving fields as items. */
    method Itemize() returns (items: seq<Item>)
      modifies this
      ensures fields == Tagged(old(fields))
      ensures items == Items(old(fields))
    {
      ghost var orig := fields;
      var related := RelatedPaths();
      items := [];
      var i := 0;
      while i < |fields|
        invariant 0 <= i <= |orig|
        invariant |fields| == |orig|
        invariant fields[..i] == TagAll(orig[..i], related)
        invariant forall k :: i <= k < |orig| ==> fields[k] == orig[k]
        invariant items == ItemsWith(orig[..i], related)
      {
        var fi := fields[i];
        assert fi == orig[i];
        assert orig[..i + 1][..i] == orig[..i];
        TagAllSnoc(orig, related, i);
        if fi.parent.Some? {
          var found := Contains(related, fi.parent.value);
          if found {
            fields := fields[i := fi.(options := fi.options[OptRelatedTo := fi.parent.value])];
          } else {
            assert fields[..i + 1] == TagAll(orig[..i + 1], related);
            i := i + 1;
            continue;
          }
        }
        items := items + [Item(fi.path, fields[i].options, fi.ty)];
        assert fields[..i + 1] == TagAll(orig[..i + 1], related);
        i := i + 1;
      }
      assert orig[..|orig|] == orig;
    }

    /** The search of TraversalsByName for the descriptor a sub-field is related to. */
    method RelationField(name: string) returns (r: Option<FieldInfo>)
      ensures r == FirstNamed(fields, name)
    {
      var k := 0;
      while k < |fields|
        invariant 0 <= k <= |fields|
        invariant FirstNamed(fields, name) == FirstNamed(fields[k..], name)
      {
        if fields[k].name == name {
          return Some(fields[k]);
        }
        assert fields[k..][1..] == fields[k + 1..];
        k := k + 1;
      }
      return None;
    }

    /** The scan of the worklist for the first column a field matches;
        |toDo| when it matches none. */
    static method FirstMatch(fi: FieldInfo, columns: seq<string>, toDo: seq<nat>) returns (num: nat)
      requires forall k :: 0 <= k < |toDo| ==> toDo[k] < |columns|
      ensures num <= |toDo|
      ensures num < |toDo| ==> Matches(fi, columns[toDo[num]])
      ensures forall k :: 0 <= k < num ==> !Matches(fi, columns[toDo[k]])
    {
      num := 0;
      while num < |toDo| && !Matches(fi, columns[toDo[num]])
        invariant 0 <= num <= |toDo|
        invariant forall k :: 0 <= k < num ==> !Matches(fi, columns[toDo[k]])
      {
        num := num + 1;
      }
    }

    /** TraversalsByName: one traversal per result column, in column order,
        bound as Binds describes; `binder` records which field each column got. */
    method TraversalsByName(columns: seq<string>) returns (travs: seq<Traversal>, ghost binder: seq<int>)
      ensures Binds(fields, columns, |fields|, binder)
      ensures TraversalsOf(fields, columns, binder, travs)
      ensures |travs| == |columns|
      ensures forall c :: 0 <= c < |columns| ==> (travs[c] == Unbound ||
        exists j :: (0 <= j < |fields| && Matches(fields[j], columns[c]) &&
          travs[c] == Binding(fields, fields[j], columns[c])))
    {
      var n := |columns|;
      travs := seq(n, _ => Unbound);
      binder := seq(n, _ => -1);
      var toDo: seq<nat> := [];
      var idx := 0;
      while idx < n
        invariant 0 <= idx <= n
        invariant |toDo| == idx && forall k :: 0 <= k < idx ==> toDo[k] == k
      {
        toDo := toDo + [idx];
        idx := idx + 1;
      }
      WorklistStart(fields, columns, toDo);
      var j := 0;
      while j < |fields|
        invariant 0 <= j <= |fields|
        invariant Worklist(fields, columns, j, toDo, binder)
        invariant TraversalsOf(fields, columns, binder, travs)
      {
        var fi := fields[j];
        var num := FirstMatch(fi, columns, toDo);
        if num < |toDo| {
          BindStep(fields, columns, j, toDo, binder, num);
          var c := toDo[num];
          var rel: Option<FieldInfo> := None;
          if OptRelatedTo in fi.options {
            rel := RelationField(fi.options[OptRelatedTo]);
          }
          assert Traversal(columns[c], fi.index, rel) == Binding(fields, fi, columns[c]);
          TraversalsStep(fields, columns, binder, travs, c, j);
          travs := travs[c := Traversal(columns[c], fi.index, rel)];
          binder := binder[c := j];
          toDo := toDo[..num] + toDo[num + 1..];
        } else {
          SkipStep(fields, columns, j, toDo, binder);
        }
        j := j + 1;
      }
      TraversalsBound(fields, columns, binder, travs);
    }
  }
}
