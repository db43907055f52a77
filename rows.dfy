/** The bookkeeping of SelectQuery.All after the query has run: find the "id"
    column, then fold the scanned rows into the destination slice, appending
    each entity whose id has not been seen and merging a repeated id into the
    element that first carried it.

    Scanning, the database cursor and mergeFields are outside the model: a row
    arrives as its entity and the id scanned from the "id" column (None when
    the column did not hold an int), and the merger is a parameter that may
    fail. */
module Rows {
  import opened Base

  /** The loop of All that looks for the "id" column; None stands for -1. */
  method IdColumn(columns: seq<string>) returns (r: Option<nat>)
    ensures r.None? <==> "id" !in columns
    ensures r.Some? ==> r.value < |columns| && columns[r.value] == "id" && "id" !in columns[..r.value]
  {
    var idx := 0;
    while idx < |columns|
      invariant 0 <= idx <= |columns|
      invariant "id" !in columns[..idx]
    {
      if columns[idx] == "id" {
        return Some(idx);
      }
      assert columns[..idx + 1] == columns[..idx] + [columns[idx]];
      idx := idx + 1;
    }
    assert columns[..idx] == columns;
    return None;
  }

  datatype Row<E> = Row(entity: E, id: Option<int>)

  /** The loop's variables: the slice, the id-to-row index and rowNum. */
  datatype FoldState<E> = FoldState(out: seq<E>, index: map<int, nat>, rowNum: nat)

  /** The id a row is filed under: only when the result has an "id" column. */
  function IdOf<E>(row: Row<E>, hasId: bool): Option<int>
  {
    if hasId then row.id else None
  }

  /** One pass of the loop body: a seen id merges into the row the index
      names; a new id is recorded at rowNum; the entity is then appended and
      rowNum advanced. Indexing past the slice is a reflect panic. */
  function Step<E>(st: FoldState<E>, row: Row<E>, hasId: bool, merge: (E, E) -> Option<E>): Result<FoldState<E>>
  {
    var id := IdOf(row, hasId);
    if id.Some? && id.value in st.index then
      var other := st.index[id.value];
      if other >= |st.out| then Err(Panic)
      else
        match merge(st.out[other], row.entity)
        case None => Err(MergeFailed)
        case Some(m) => Ok(st.(out := st.out[other := m]))
    else if id.Some? then
      Ok(FoldState(st.out + [row.entity], st.index[id.value := st.rowNum], st.rowNum + 1))
    else
      Ok(FoldState(st.out + [row.entity], st.index, st.rowNum + 1))
  }

  /** The loop over the rows, starting from the slice's previous contents and
      an empty index, with rowNum starting at start. */
  function Fold<E>(init: seq<E>, rows: seq<Row<E>>, hasId: bool, merge: (E, E) -> Option<E>, start: nat)
    : Result<FoldState<E>>
  {
    if |rows| == 0 then Ok(FoldState(init, map[], start))
    else
      match Fold(init, rows[..|rows| - 1], hasId, merge, start)
      case Err(e) => Err(e)
      case Ok(st) => Step(st, rows[|rows| - 1], hasId, merge)
  }

  /** All as written: rowNum starts at 0 whatever the slice already holds. */
  function AllAsWritten<E>(init: seq<E>, rows: seq<Row<E>>, hasId: bool, merge: (E, E) -> Option<E>)
    : Result<seq<E>>
  {
    match Fold(init, rows, hasId, merge, 0)
    case Err(e) => Err(e)
    case Ok(st) => Ok(st.out)
  }

  /** All with rowNum starting at the slice's length, so that the index names
      positions of the slice being appended to. */
  function AllRows<E>(init: seq<E>, rows: seq<Row<E>>, hasId: bool, merge: (E, E) -> Option<E>)
    : Result<seq<E>>
  {
    match Fold(init, rows, hasId, merge, |init|)
    case Err(e) => Err(e)
    case Ok(st) => Ok(st.out)
  }

  /** The ids filed so far. */
  function SeenIds<E>(rows: seq<Row<E>>, hasId: bool): set<int>
  {
    if |rows| == 0 then {}
    else
      var id := IdOf(rows[|rows| - 1], hasId);
      SeenIds(rows[..|rows| - 1], hasId) + (if id.Some? then {id.value} else {})
  }

  /** The rows that are appended rather than merged, by their ids: a row
      without an id, or the first row carrying its id. */
  function Appended<E>(rows: seq<Row<E>>, hasId: bool): seq<Option<int>>
  {
    if |rows| == 0 then []
    else
      var init := rows[..|rows| - 1];
      var id := IdOf(rows[|rows| - 1], hasId);
      if id.Some? && id.value in SeenIds(init, hasId) then Appended(init, hasId)
      else Appended(init, hasId) + [id]
  }

  /** Every id in Appended has been seen, and no id is appended twice. */
  lemma {:induction false} AppendedIds<E>(rows: seq<Row<E>>, hasId: bool)
    ensures forall k :: 0 <= k < |Appended(rows, hasId)| && Appended(rows, hasId)[k].Some? ==>
      Appended(rows, hasId)[k].value in SeenIds(rows, hasId)
    ensures forall k, k' ::
      (0 <= k < k' < |Appended(rows, hasId)| && Appended(rows, hasId)[k].Some?) ==>
      Appended(rows, hasId)[k] != Appended(rows, hasId)[k']
  {
    if |rows| > 0 {
      AppendedIds(rows[..|rows| - 1], hasId);
    }
  }

  /** The loop invariant of the corrected fold. */
  ghost predicate Good<E>(st: FoldState<E>, init: seq<E>, rows: seq<Row<E>>, hasId: bool)
  {
    var app := Appended(rows, hasId);
    && st.rowNum == |st.out| == |init| + |app|
    && st.out[..|init|] == init
    && st.index.Keys == SeenIds(rows, hasId)
    && (forall d :: d in st.index ==> |init| <= st.index[d] < |st.out|)
    && (forall k :: 0 <= k < |app| && app[k].Some? ==>
          app[k].value in st.index && st.index[app[k].value] == |init| + k)
  }

  /** The loop body keeps the invariant; it can only fail in the merger. */
  lemma StepGood<E>(st: FoldState<E>, init: seq<E>, rows: seq<Row<E>>, row: Row<E>,
                    hasId: bool, merge: (E, E) -> Option<E>)
    requires Good(st, init, rows, hasId)
    ensures Step(st, row, hasId, merge).Err? ==> Step(st, row, hasId, merge).error == MergeFailed
    ensures Step(st, row, hasId, merge).Ok? ==> Good(Step(st, row, hasId, merge).value, init, rows + [row], hasId)
  {
    var id := IdOf(row, hasId);
    if id.Some? && id.value in st.index {
      StepSeen(st, init, rows, row, hasId, merge);
    } else {
      StepAppend(st, init, rows, row, hasId, merge);
    }
  }

  /** A repeated id merges into an element behind the previous contents. */
  lemma StepSeen<E>(st: FoldState<E>, init: seq<E>, rows: seq<Row<E>>, row: Row<E>,
                    hasId: bool, merge: (E, E) -> Option<E>)
    requires Good(st, init, rows, hasId)
    requires IdOf(row, hasId).Some? && IdOf(row, hasId).value in st.index
    ensures Step(st, row, hasId, merge).Err? ==> Step(st, row, hasId, merge).error == MergeFailed
    ensures Step(st, row, hasId, merge).Ok? ==> Good(Step(st, row, hasId, merge).value, init, rows + [row], hasId)
  {
    var rows' := rows + [row];
    assert rows'[..|rows|] == rows;
    var d := IdOf(row, hasId).value;
    var other := st.index[d];
    assert |init| <= other < |st.out|;
    if merge(st.out[other], row.entity).Some? {
      var st' := Step(st, row, hasId, merge).value;
      assert st'.out[..|init|] == st.out[..|init|] by {
        forall j | 0 <= j < |init|
          ensures st'.out[j] == st.out[j]
        {
        }
      }
      assert SeenIds(rows', hasId) == SeenIds(rows, hasId);
      assert Appended(rows', hasId) == Appended(rows, hasId);
    }
  }

  /** A row without an id, or with a new one, is appended at rowNum. */
  lemma StepAppend<E>(st: FoldState<E>, init: seq<E>, rows: seq<Row<E>>, row: Row<E>,
                      hasId: bool, merge: (E, E) -> Option<E>)
    requires Good(st, init, rows, hasId)
    requires !(IdOf(row, hasId).Some? && IdOf(row, hasId).value in st.index)
    ensures Step(st, row, hasId, merge).Ok?
    ensures Good(Step(st, row, hasId, merge).value, init, rows + [row], hasId)
  {
    var rows' := rows + [row];
    assert rows'[..|rows|] == rows;
    AppendedIds(rows, hasId);
    var st' := Step(st, row, hasId, merge).value;
    assert st'.out[..|init|] == st.out[..|init|];
    assert Appended(rows', hasId) == Appended(rows, hasId) + [IdOf(row, hasId)];
  }

  /** What All promises of the corrected fold: the slice's previous contents
      stay in front; behind them every row without an id and the first row of
      every id is appended once, in the order the rows came; the index files
      each id under the position of its element. The only failure is the
      merger's. */
  lemma {:induction false} FoldGood<E>(init: seq<E>, rows: seq<Row<E>>, hasId: bool, merge: (E, E) -> Option<E>)
    ensures Fold(init, rows, hasId, merge, |init|).Err? ==> Fold(init, rows, hasId, merge, |init|).error == MergeFailed
    ensures Fold(init, rows, hasId, merge, |init|).Ok? ==> Good(Fold(init, rows, hasId, merge, |init|).value, init, rows, hasId)
  {
    if |rows| > 0 {
      var prefix := rows[..|rows| - 1];
      FoldGood(init, prefix, hasId, merge);
      if Fold(init, prefix, hasId, merge, |init|).Ok? {
        StepGood(Fold(init, prefix, hasId, merge, |init|).value, init, prefix, rows[|rows| - 1], hasId, merge);
        assert prefix + [rows[|rows| - 1]] == rows;
      }
    } else {
      assert init[..|init|] == init;
    }
  }

  /** The id-deduplication promise of All in the terms of the slice: previous
      contents kept, one element per appended row, and no id filed twice. */
  lemma AllRowsSpec<E>(init: seq<E>, rows: seq<Row<E>>, hasId: bool, merge: (E, E) -> Option<E>)
    ensures AllRows(init, rows, hasId, merge).Err? ==> AllRows(init, rows, hasId, merge).error == MergeFailed
    ensures AllRows(init, rows, hasId, merge).Ok? ==>
      var out := AllRows(init, rows, hasId, merge).value;
      var app := Appended(rows, hasId);
      && |out| == |init| + |app|
      && out[..|init|] == init
      && (forall k, k' :: (0 <= k < k' < |app| && app[k].Some?) ==> app[k] != app[k'])
      && (forall d :: d in SeenIds(rows, hasId) <==> Some(d) in app)
  {
    FoldGood(init, rows, hasId, merge);
    AppendedIds(rows, hasId);
    if AllRows(init, rows, hasId, merge).Ok? {
      var st := Fold(init, rows, hasId, merge, |init|).value;
      var app := Appended(rows, hasId);
      forall d | d in SeenIds(rows, hasId)
        ensures Some(d) in app
      {
        var k := st.index[d] - |init|;
        AppendedPosition(st, init, rows, hasId, d);
      }
    }
  }

  /** The element an id is filed under is the one its first row appended. */
  lemma AppendedPosition<E>(st: FoldState<E>, init: seq<E>, rows: seq<Row<E>>, hasId: bool, d: int)
    requires Good(st, init, rows, hasId) && d in st.index
    ensures Some(d) in Appended(rows, hasId)
  {
    AppendedIds(rows, hasId);
    var app := Appended(rows, hasId);
    var k := st.index[d] - |init|;
    assert 0 <= k < |app|;
    if app[k] != Some(d) {
      SeenIdsAppended(rows, hasId, d);
    }
  }

  /** Every seen id is the id of some appended row. */
  lemma {:induction false} SeenIdsAppended<E>(rows: seq<Row<E>>, hasId: bool, d: int)
    requires d in SeenIds(rows, hasId)
    ensures Some(d) in Appended(rows, hasId)
  {
    var init := rows[..|rows| - 1];
    var id := IdOf(rows[|rows| - 1], hasId);
    if d in SeenIds(init, hasId) {
      SeenIdsAppended(init, hasId, d);
    }
  }

  // ---------------------------------------------------------------------
  // The contents of the slice

  /** The rows that are appended rather than merged: a row without an id, or
      the first row carrying its id. */
  function Firsts<E>(rows: seq<Row<E>>, hasId: bool): seq<Row<E>>
  {
    if |rows| == 0 then []
    else
      var init := rows[..|rows| - 1];
      var id := IdOf(rows[|rows| - 1], hasId);
      if id.Some? && id.value in SeenIds(init, hasId) then Firsts(init, hasId)
      else Firsts(init, hasId) + [rows[|rows| - 1]]
  }

  /** The entities of the rows filed under id d, in row order. */
  function Members<E>(rows: seq<Row<E>>, hasId: bool, d: int): seq<E>
  {
    if |rows| == 0 then []
    else
      Members(rows[..|rows| - 1], hasId, d) +
        (if IdOf(rows[|rows| - 1], hasId) == Some(d) then [rows[|rows| - 1].entity] else [])
  }

  /** The merger folded over entities from the oldest on, each merge taking
      the result so far and the next entity; None once a merge fails. */
  function Merged<E>(es: seq<E>, merge: (E, E) -> Option<E>): Option<E>
  {
    if |es| == 0 then None
    else if |es| == 1 then Some(es[0])
    else
      match Merged(es[..|es| - 1], merge)
      case None => None
      case Some(m) => merge(m, es[|es| - 1])
  }

  /** The element an appended row becomes: the row's own entity when it has
      no id, otherwise every entity filed under its id merged in row order. */
  function Expected<E>(first: Row<E>, rows: seq<Row<E>>, hasId: bool, merge: (E, E) -> Option<E>): Option<E>
  {
    match IdOf(first, hasId)
    case None => Some(first.entity)
    case Some(d) => Merged(Members(rows, hasId, d), merge)
  }

  /** The reference functions one row further on. */
  lemma RowsSnoc<E>(rows: seq<Row<E>>, row: Row<E>, hasId: bool)
    ensures var id := IdOf(row, hasId);
      SeenIds(rows + [row], hasId) == SeenIds(rows, hasId) + (if id.Some? then {id.value} else {})
    ensures var id := IdOf(row, hasId);
      Firsts(rows + [row], hasId) ==
        if id.Some? && id.value in SeenIds(rows, hasId) then Firsts(rows, hasId) else Firsts(rows, hasId) + [row]
    ensures forall d :: (Members(rows + [row], hasId, d) ==
      Members(rows, hasId, d) + (if IdOf(row, hasId) == Some(d) then [row.entity] else []))
  {
    assert (rows + [row])[..|rows|] == rows;
  }

  /** An id has members exactly when it has been seen. */
  lemma {:induction false} MembersSeen<E>(rows: seq<Row<E>>, hasId: bool, d: int)
    ensures d in SeenIds(rows, hasId) <==> |Members(rows, hasId, d)| > 0
  {
    if |rows| > 0 {
      MembersSeen(rows[..|rows| - 1], hasId, d);
    }
  }

  /** Firsts lists the rows behind Appended's ids. */
  lemma {:induction false} FirstsAppended<E>(rows: seq<Row<E>>, hasId: bool)
    ensures |Firsts(rows, hasId)| == |Appended(rows, hasId)|
    ensures forall k :: 0 <= k < |Firsts(rows, hasId)| ==>
      IdOf(Firsts(rows, hasId)[k], hasId) == Appended(rows, hasId)[k]
  {
    if |rows| > 0 {
      FirstsAppended(rows[..|rows| - 1], hasId);
    }
  }

  /** One more entity after a failed merge: still failed. */
  lemma MergedFailed<E>(es: seq<E>, e: E, merge: (E, E) -> Option<E>)
    requires |es| > 0 && Merged(es, merge).None?
    ensures Merged(es + [e], merge).None?
  {
    assert (es + [e])[..|es|] == es;
  }

  /** One more entity after a merge that succeeded: the merger applied to
      the result so far and that entity. */
  lemma MergedNext<E>(es: seq<E>, e: E, merge: (E, E) -> Option<E>)
    requires Merged(es, merge).Some?
    ensures Merged(es + [e], merge) == merge(Merged(es, merge).value, e)
  {
    assert (es + [e])[..|es|] == es;
  }

  /** The contents part of the loop invariant: the element behind the
      previous contents at position k is what the k-th appended row becomes. */
  ghost predicate Contents<E>(st: FoldState<E>, init: seq<E>, rows: seq<Row<E>>, hasId: bool,
                              merge: (E, E) -> Option<E>)
  {
    var firsts := Firsts(rows, hasId);
    && |init| + |firsts| <= |st.out|
    && forall k :: 0 <= k < |firsts| ==> Expected(firsts[k], rows, hasId, merge) == Some(st.out[|init| + k])
  }

  /** Appending a row keeps the contents: the earlier elements are
      untouched and the new one is the row's entity, the only member of its
      id so far. */
  lemma ContentsAppend<E>(st: FoldState<E>, init: seq<E>, rows: seq<Row<E>>, row: Row<E>,
                          hasId: bool, merge: (E, E) -> Option<E>)
    requires Good(st, init, rows, hasId) && Contents(st, init, rows, hasId, merge)
    requires !(IdOf(row, hasId).Some? && IdOf(row, hasId).value in st.index)
    ensures Step(st, row, hasId, merge).Ok?
    ensures Contents(Step(st, row, hasId, merge).value, init, rows + [row], hasId, merge)
  {
    var rows' := rows + [row];
    var id := IdOf(row, hasId);
    RowsSnoc(rows, row, hasId);
    FirstsAppended(rows, hasId);
    AppendedIds(rows, hasId);
    var st' := Step(st, row, hasId, merge).value;
    var firsts := Firsts(rows, hasId);
    assert Firsts(rows', hasId) == firsts + [row];
    forall k | 0 <= k < |firsts|
      ensures Expected(firsts[k], rows', hasId, merge) == Some(st'.out[|init| + k])
    {
      var fid := IdOf(firsts[k], hasId);
      if fid.Some? {
        assert fid.value in SeenIds(rows, hasId);
        assert Members(rows', hasId, fid.value) == Members(rows, hasId, fid.value);
      }
    }
    if id.Some? {
      MembersSeen(rows, hasId, id.value);
      assert Members(rows', hasId, id.value) == [row.entity];
    }
  }

  /** Merging a repeated id keeps the contents: only the element of that
      id's first row changes, to the merge of its members so far and the new
      entity. */
  lemma ContentsSeen<E>(st: FoldState<E>, init: seq<E>, rows: seq<Row<E>>, row: Row<E>,
                        hasId: bool, merge: (E, E) -> Option<E>)
    requires Good(st, init, rows, hasId) && Contents(st, init, rows, hasId, merge)
    requires IdOf(row, hasId).Some? && IdOf(row, hasId).value in st.index
    requires Step(st, row, hasId, merge).Ok?
    ensures Contents(Step(st, row, hasId, merge).value, init, rows + [row], hasId, merge)
  {
    var rows' := rows + [row];
    var d := IdOf(row, hasId).value;
    RowsSnoc(rows, row, hasId);
    FirstsAppended(rows, hasId);
    AppendedIds(rows, hasId);
    SeenIdsAppended(rows, hasId, d);
    var app := Appended(rows, hasId);
    var k0 :| 0 <= k0 < |app| && app[k0] == Some(d);
    var firsts := Firsts(rows, hasId);
    assert Firsts(rows', hasId) == firsts;
    var st' := Step(st, row, hasId, merge).value;
    forall k | 0 <= k < |firsts|
      ensures Expected(firsts[k], rows', hasId, merge) == Some(st'.out[|init| + k])
    {
      if k == k0 {
        var ms := Members(rows, hasId, d);
        assert Expected(firsts[k0], rows, hasId, merge) == Merged(ms, merge);
        MergedNext(ms, row.entity, merge);
      } else {
        assert app[k] != app[k0];
        var fid := IdOf(firsts[k], hasId);
        if fid.Some? {
          assert Members(rows', hasId, fid.value) == Members(rows, hasId, fid.value);
        }
      }
    }
  }

  /** The corrected loop keeps the contents invariant. */
  lemma {:induction false} FoldContents<E>(init: seq<E>, rows: seq<Row<E>>, hasId: bool, merge: (E, E) -> Option<E>)
    requires Fold(init, rows, hasId, merge, |init|).Ok?
    ensures Contents(Fold(init, rows, hasId, merge, |init|).value, init, rows, hasId, merge)
  {
    if |rows| > 0 {
      var prefix := rows[..|rows| - 1];
      var row := rows[|rows| - 1];
      assert prefix + [row] == rows;
      FoldGood(init, prefix, hasId, merge);
      FoldContents(init, prefix, hasId, merge);
      var st := Fold(init, prefix, hasId, merge, |init|).value;
      if IdOf(row, hasId).Some? && IdOf(row, hasId).value in st.index {
        ContentsSeen(st, init, prefix, row, hasId, merge);
      } else {
        ContentsAppend(st, init, prefix, row, hasId, merge);
      }
    }
  }

  /** A failing corrected loop leaves an appended row whose id's members do
      not merge. */
  lemma {:induction false} FoldFails<E>(init: seq<E>, rows: seq<Row<E>>, hasId: bool, merge: (E, E) -> Option<E>)
    requires Fold(init, rows, hasId, merge, |init|).Err?
    ensures exists k :: (0 <= k < |Firsts(rows, hasId)| &&
      Expected(Firsts(rows, hasId)[k], rows, hasId, merge).None?)
  {
    var prefix := rows[..|rows| - 1];
    var row := rows[|rows| - 1];
    assert prefix + [row] == rows;
    if Fold(init, prefix, hasId, merge, |init|).Err? {
      FoldFails(init, prefix, hasId, merge);
      FailedEarlier(prefix, row, hasId, merge);
    } else {
      FailedHere(init, prefix, row, hasId, merge);
    }
  }

  /** A failure among the earlier rows survives one more row. */
  lemma FailedEarlier<E>(rows: seq<Row<E>>, row: Row<E>, hasId: bool, merge: (E, E) -> Option<E>)
    requires exists k :: (0 <= k < |Firsts(rows, hasId)| &&
      Expected(Firsts(rows, hasId)[k], rows, hasId, merge).None?)
    ensures exists k :: (0 <= k < |Firsts(rows + [row], hasId)| &&
      Expected(Firsts(rows + [row], hasId)[k], rows + [row], hasId, merge).None?)
  {
    RowsSnoc(rows, row, hasId);
    var firsts := Firsts(rows, hasId);
    var k :| 0 <= k < |firsts| && Expected(firsts[k], rows, hasId, merge).None?;
    FirstsAppended(rows, hasId);
    AppendedIds(rows, hasId);
    FailedStays(rows, row, firsts[k], hasId, merge);
    assert Firsts(rows + [row], hasId)[k] == firsts[k];
  }

  /** A loop that fails at its last row fails on the merge of that row's id. */
  lemma FailedHere<E>(init: seq<E>, rows: seq<Row<E>>, row: Row<E>, hasId: bool, merge: (E, E) -> Option<E>)
    requires Fold(init, rows, hasId, merge, |init|).Ok?
    requires Fold(init, rows + [row], hasId, merge, |init|).Err?
    ensures exists k :: (0 <= k < |Firsts(rows + [row], hasId)| &&
      Expected(Firsts(rows + [row], hasId)[k], rows + [row], hasId, merge).None?)
  {
    RowsSnoc(rows, row, hasId);
    var firsts := Firsts(rows, hasId);
    var st := Fold(init, rows, hasId, merge, |init|).value;
    FoldGood(init, rows, hasId, merge);
    FoldContents(init, rows, hasId, merge);
    StepGood(st, init, rows, row, hasId, merge);
    var d := IdOf(row, hasId).value;
    FirstsAppended(rows, hasId);
    SeenIdsAppended(rows, hasId, d);
    var app := Appended(rows, hasId);
    var k0 :| 0 <= k0 < |app| && app[k0] == Some(d);
    var ms := Members(rows, hasId, d);
    assert Expected(firsts[k0], rows, hasId, merge) == Merged(ms, merge);
    MergedNext(ms, row.entity, merge);
    assert Firsts(rows + [row], hasId) == firsts;
  }

  /** A seen id whose members do not merge still does not once a row more
      is read. */
  lemma FailedStays<E>(rows: seq<Row<E>>, row: Row<E>, first: Row<E>, hasId: bool, merge: (E, E) -> Option<E>)
    requires Expected(first, rows, hasId, merge).None?
    requires IdOf(first, hasId).Some? ==> IdOf(first, hasId).value in SeenIds(rows, hasId)
    ensures Expected(first, rows + [row], hasId, merge).None?
  {
    var d := IdOf(first, hasId).value;
    RowsSnoc(rows, row, hasId);
    MembersSeen(rows, hasId, d);
    var ms := Members(rows, hasId, d);
    assert Expected(first, rows, hasId, merge) == Merged(ms, merge);
    if IdOf(row, hasId) == Some(d) {
      assert Members(rows + [row], hasId, d) == ms + [row.entity];
      MergedFailed(ms, row.entity, merge);
    } else {
      assert Members(rows + [row], hasId, d) == ms + [];
      assert ms + [] == ms;
    }
  }

  /** The contents of the corrected All: behind the previous contents, the
      k-th appended row becomes its own entity when it has no id, and
      otherwise the merge, in row order, of every entity filed under its id;
      All fails exactly when one of those merges fails. */
  lemma AllRowsContents<E>(init: seq<E>, rows: seq<Row<E>>, hasId: bool, merge: (E, E) -> Option<E>)
    ensures var firsts := Firsts(rows, hasId);
      AllRows(init, rows, hasId, merge).Ok? <==>
        forall k :: 0 <= k < |firsts| ==> Expected(firsts[k], rows, hasId, merge).Some?
    ensures AllRows(init, rows, hasId, merge).Ok? ==>
      var out := AllRows(init, rows, hasId, merge).value;
      var firsts := Firsts(rows, hasId);
      && |out| == |init| + |firsts|
      && out[..|init|] == init
      && forall k :: 0 <= k < |firsts| ==> Expected(firsts[k], rows, hasId, merge) == Some(out[|init| + k])
  {
    FoldGood(init, rows, hasId, merge);
    FirstsAppended(rows, hasId);
    if Fold(init, rows, hasId, merge, |init|).Ok? {
      FoldContents(init, rows, hasId, merge);
    } else {
      FoldFails(init, rows, hasId, merge);
    }
  }

  /** The scanned entities, in row order. */
  function Entities<E>(rows: seq<Row<E>>): (r: seq<E>)
    ensures |r| == |rows| && forall k :: 0 <= k < |rows| ==> r[k] == rows[k].entity
  {
    seq(|rows|, k requires 0 <= k < |rows| => rows[k].entity)
  }

  /** Without an "id" column every row is appended, in order, after the
      previous contents. */
  lemma {:induction false} AllRowsWithoutId<E>(init: seq<E>, rows: seq<Row<E>>, merge: (E, E) -> Option<E>)
    ensures AllRows(init, rows, false, merge) == Ok(init + Entities(rows))
  {
    if |rows| > 0 {
      var prefix := rows[..|rows| - 1];
      AllRowsWithoutId(init, prefix, merge);
      var ents := Entities(prefix);
      var st := Fold(init, prefix, false, merge, |init|);
      assert st.Ok? && st.value.out == init + ents;
      assert Fold(init, rows, false, merge, |init|) == Step(st.value, rows[|rows| - 1], false, merge);
      assert init + Entities(rows) == init + ents + [rows[|rows| - 1].entity];
      var st' := Fold(init, rows, false, merge, |init|);
      assert st'.Ok? && st'.value.out == init + ents + [rows[|rows| - 1].entity];
    } else {
      assert init + Entities(rows) == init;
    }
  }

  /** With an empty destination, as in every use the library shows, the
      written loop and the corrected one agree. */
  lemma AllAsWrittenOnEmpty<E>(rows: seq<Row<E>>, hasId: bool, merge: (E, E) -> Option<E>)
    ensures AllAsWritten([], rows, hasId, merge) == AllRows([], rows, hasId, merge)
  {
  }

  /** A merger that keeps the newer entity. */
  function KeepNewer(older: int, newer: int): Option<int>
  {
    Some(newer)
  }

  /** The written loop merges a repeated id into an element that was in the
      slice before the query: with one previous element 10, two rows of id 1
      and a merger that keeps the newer entity, it overwrites 10 and leaves
      the first row's 20 unmerged; the corrected loop merges into 20. */
  lemma AllAsWrittenMergesIntoOldElement()
    ensures AllAsWritten([10], [Row(20, Some(1)), Row(30, Some(1))], true, KeepNewer) == Ok([30, 20])
    ensures AllRows([10], [Row(20, Some(1)), Row(30, Some(1))], true, KeepNewer) == Ok([10, 30])
  {
    var merge := KeepNewer;
    var rows := [Row(20, Some(1)), Row(30, Some(1))];
    assert rows[..1] == [Row(20, Some(1))] && rows[..1][..0] == [];
    // as written: the first row is filed under 0, the index of the old element
    var w0 := Fold([10], rows[..1][..0], true, merge, 0);
    assert w0 == Ok(FoldState([10], map[], 0));
    assert Fold([10], rows[..1], true, merge, 0) == Step(w0.value, rows[0], true, merge);
    var w1 := Fold([10], rows[..1], true, merge, 0);
    assert w1.Ok? && w1.value.out == [10, 20] && w1.value.index == map[1 := 0];
    assert Fold([10], rows, true, merge, 0) == Step(w1.value, rows[1], true, merge);
    var w2 := Fold([10], rows, true, merge, 0);
    assert w2.Ok? && w2.value.out == [30, 20];
    // corrected: the first row is filed under 1, its own position
    var c0 := Fold([10], rows[..1][..0], true, merge, 1);
    assert c0 == Ok(FoldState([10], map[], 1));
    assert Fold([10], rows[..1], true, merge, 1) == Step(c0.value, rows[0], true, merge);
    var c1 := Fold([10], rows[..1], true, merge, 1);
    assert c1.Ok? && c1.value.out == [10, 20] && c1.value.index == map[1 := 1];
    assert Fold([10], rows, true, merge, 1) == Step(c1.value, rows[1], true, merge);
    var c2 := Fold([10], rows, true, merge, 1);
    assert c2.Ok? && c2.value.out == [10, 30];
  }

  /** The row loop of All, as it runs, with rowNum starting at the slice's
      length. */
  method FoldRows<E>(init: seq<E>, rows: seq<Row<E>>, hasId: bool, merge: (E, E) -> Option<E>)
    returns (r: Result<seq<E>>)
    ensures r == AllRows(init, rows, hasId, merge)
  {
    var out := init;
    var index: map<int, nat> := map[];
    var rowNum: nat := |init|;
    var i := 0;
    while i < |rows|
      invariant 0 <= i <= |rows|
      invariant Fold(init, rows[..i], hasId, merge, |init|) == Ok(FoldState(out, index, rowNum))
    {
      assert rows[..i + 1][..i] == rows[..i];
      var row := rows[i];
      var id := if hasId then row.id else None;
      if id.Some? && id.value in index {
        var other := index[id.value];
        if other >= |out| {
          FoldErrSticky(init, rows, hasId, merge, i + 1);
          return Err(Panic);
        }
        var m := merge(out[other], row.entity);
        if m.None? {
          FoldErrSticky(init, rows, hasId, merge, i + 1);
          return Err(MergeFailed);
        }
        out := out[other := m.value];
      } else {
        if id.Some? {
          index := index[id.value := rowNum];
        }
        out := out + [row.entity];
        rowNum := rowNum + 1;
      }
      i := i + 1;
    }
    assert rows[..|rows|] == rows;
    return Ok(out);
  }

  /** A failure in the loop ends All. */
  lemma {:induction false} FoldErrSticky<E>(init: seq<E>, rows: seq<Row<E>>, hasId: bool,
                                             merge: (E, E) -> Option<E>, n: nat)
    requires n <= |rows| && Fold(init, rows[..n], hasId, merge, |init|).Err?
    ensures Fold(init, rows, hasId, merge, |init|) == Fold(init, rows[..n], hasId, merge, |init|)
    decreases |rows| - n
  {
    if n < |rows| {
      assert rows[..n + 1][..n] == rows[..n];
      FoldErrSticky(init, rows, hasId, merge, n + 1);
    } else {
      assert rows[..n] == rows;
    }
  }
}
