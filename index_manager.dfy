/**
 * The index manager: one index per indexed column, mapping each value seen in
 * that column to the list of entity ids that produced it (`create_indices`
 * and the `<column>_index.json` files).
 */
module IndexManager {
  import opened Types

  /** One index file: column value to entity ids, kept free of duplicates. */
  type Index = map<string, seq<string>>

  /** The index files that exist, keyed by their column. */
  type Indices = map<Column, Index>

  predicate Distinct(ids: seq<string>)
  {
    forall i, j :: 0 <= i < j < |ids| ==> ids[i] != ids[j]
  }

  /** The index file of a column, or `{}` when it cannot be opened. */
  function LoadIndex(ixs: Indices, c: Column): Index
  {
    if c in ixs then ixs[c] else map[]
  }

  /** The ids listed under `(c, v)`, if the index of `c` exists and has the key `v`. */
  function Entry(ixs: Indices, c: Column, v: string): Option<seq<string>>
  {
    if c in ixs && v in ixs[c] then Some(ixs[c][v]) else None
  }

  /** `id` is listed under value `v` of column `c`. */
  predicate Indexed(ixs: Indices, c: Column, v: string, id: string)
  {
    c in ixs && v in ixs[c] && id in ixs[c][v]
  }

  /** A list after `id` has been added to it as to a set. */
  function WithId(ids: seq<string>, id: string): (r: seq<string>)
    ensures id in r
    ensures forall x :: x in r <==> x in ids || x == id
    ensures Distinct(ids) ==> Distinct(r)
  {
    if id in ids then ids else ids + [id]
  }

  /**
   * One pass of the loop in `create_indices`: create the key with an empty
   * list when it is missing, then append the id unless it is already there.
   */
  function AddId(ix: Index, value: string, id: string): (r: Index)
    ensures r.Keys == ix.Keys + {value}
    ensures r[value] == WithId(if value in ix then ix[value] else [], id)
    ensures forall v :: v in ix && v != value ==> r[v] == ix[v]
  {
    var ix' := if value in ix then ix else ix[value := []];
    if id in ix'[value] then ix' else ix'[value := ix'[value] + [id]]
  }

  /** Load the index of `c`, add `id` under `value`, write the index back. */
  function IndexColumn(ixs: Indices, c: Column, value: string, id: string): Indices
  {
    ixs[c := AddId(LoadIndex(ixs, c), value, id)]
  }

  /** The index updates for the columns `cols`, taken in order. */
  function IndexColumns(ixs: Indices, e: Record, cols: seq<Column>): Indices
    decreases |cols|
  {
    if cols == [] then ixs
    else
      var c := cols[|cols| - 1];
      IndexColumn(IndexColumns(ixs, e, cols[..|cols| - 1]), c, e.Get(c), e.stb)
  }

  /** `create_indices(e)`: the five index updates of one event. */
  function IndexRecord(ixs: Indices, e: Record): Indices
  {
    IndexColumns(ixs, e, IndexedColumns)
  }

  /** Every index list is free of duplicates. */
  ghost predicate NoDuplicates(ixs: Indices)
  {
    forall c, v :: c in ixs && v in ixs[c] ==> Distinct(ixs[c][v])
  }

  /** Every listing of `a` is still present in `b`: indices only grow. */
  ghost predicate Grows(a: Indices, b: Indices)
  {
    && a.Keys <= b.Keys
    && (forall c, v :: c in a && v in a[c] ==> v in b[c])
    && (forall c, v, id :: Indexed(a, c, v, id) ==> Indexed(b, c, v, id))
  }

  function ListOr(o: Option<seq<string>>): seq<string>
  {
    if o.Some? then o.value else []
  }

  lemma IndexColumnEntry(ixs: Indices, c0: Column, value: string, id: string, c: Column, v: string)
    ensures Entry(IndexColumn(ixs, c0, value, id), c, v) ==
              if c == c0 && v == value then Some(WithId(ListOr(Entry(ixs, c, v)), id))
              else Entry(ixs, c, v)
  {
  }

  lemma {:induction false} IndexColumnsKeys(ixs: Indices, e: Record, cols: seq<Column>)
    ensures forall c :: c in IndexColumns(ixs, e, cols) <==> c in ixs || c in cols
    decreases |cols|
  {
    if cols != [] {
      var cols', c0 := cols[..|cols| - 1], cols[|cols| - 1];
      IndexColumnsKeys(ixs, e, cols');
      assert cols == cols' + [c0];
      assert forall c :: c in cols <==> c in cols' || c == c0;
    }
  }

  lemma {:induction false} IndexColumnsEntry(ixs: Indices, e: Record, cols: seq<Column>, c: Column, v: string)
    ensures Entry(IndexColumns(ixs, e, cols), c, v) ==
              if c in cols && v == e.Get(c) then Some(WithId(ListOr(Entry(ixs, c, v)), e.stb))
              else Entry(ixs, c, v)
    decreases |cols|
  {
    if cols != [] {
      var cols', c0 := cols[..|cols| - 1], cols[|cols| - 1];
      var prev := IndexColumns(ixs, e, cols');
      assert c in cols <==> c in cols' || c == c0 by {
        assert cols == cols' + [c0];
      }
      assert IndexColumns(ixs, e, cols) == IndexColumn(prev, c0, e.Get(c0), e.stb);
      IndexColumnsEntry(ixs, e, cols', c, v);
      IndexColumnEntry(prev, c0, e.Get(c0), e.stb, c, v);
    }
  }

  /**
   * What `create_indices(e)` changes: every index file exists afterwards, and
   * exactly the entries `(c, e[c])` of the five indexed columns change, each
   * to its old list with `e.stb` added as to a set.
   */
  lemma IndexRecordEffect(ixs: Indices, e: Record)
    ensures var r := IndexRecord(ixs, e);
      && (forall c :: c in r <==> c in ixs || c != Stb)
      && (forall c, v :: Entry(r, c, v) ==
            if c != Stb && v == e.Get(c) then Some(WithId(ListOr(Entry(ixs, c, v)), e.stb))
            else Entry(ixs, c, v))
  {
    IndexColumnsKeys(ixs, e, IndexedColumns);
    assert forall c :: c in IndexedColumns <==> c != Stb;
    forall c, v
      ensures Entry(IndexRecord(ixs, e), c, v) ==
              if c != Stb && v == e.Get(c) then Some(WithId(ListOr(Entry(ixs, c, v)), e.stb))
              else Entry(ixs, c, v)
    {
      IndexColumnsEntry(ixs, e, IndexedColumns, c, v);
    }
  }

  /** After `create_indices(e)` the id of `e` is listed under each of its five values. */
  lemma IndexRecordMembership(ixs: Indices, e: Record)
    ensures forall c :: c != Stb ==> Indexed(IndexRecord(ixs, e), c, e.Get(c), e.stb)
  {
    IndexRecordEffect(ixs, e);
    var r := IndexRecord(ixs, e);
    forall c | c != Stb
      ensures Indexed(r, c, e.Get(c), e.stb)
    {
      assert Entry(r, c, e.Get(c)).Some?;
    }
  }

  /** Nothing is ever removed from an index. */
  lemma IndexRecordGrows(ixs: Indices, e: Record)
    ensures Grows(ixs, IndexRecord(ixs, e))
  {
    IndexRecordEffect(ixs, e);
    var r := IndexRecord(ixs, e);
    forall c, v | c in ixs && v in ixs[c]
      ensures v in r[c] && forall id :: id in ixs[c][v] ==> id in r[c][v]
    {
      assert Entry(ixs, c, v).Some?;
      assert Entry(r, c, v).Some?;
    }
  }

  /** Adding an id only when it is absent keeps every list free of duplicates. */
  lemma IndexRecordNoDuplicates(ixs: Indices, e: Record)
    requires NoDuplicates(ixs)
    ensures NoDuplicates(IndexRecord(ixs, e))
  {
    IndexRecordEffect(ixs, e);
    var r := IndexRecord(ixs, e);
    forall c, v | c in r && v in r[c]
      ensures Distinct(r[c][v])
    {
      assert Entry(r, c, v).Some?;
      assert Distinct(ListOr(Entry(ixs, c, v)));
    }
  }

  /** Two index sets with the same files and the same entries are equal. */
  lemma EntriesDetermine(a: Indices, b: Indices)
    requires forall c :: c in a <==> c in b
    requires forall c, v :: Entry(a, c, v) == Entry(b, c, v)
    ensures a == b
  {
    forall c | c in a
      ensures a[c] == b[c]
    {
      forall v
        ensures (v in a[c] <==> v in b[c]) && (v in a[c] ==> a[c][v] == b[c][v])
      {
        assert Entry(a, c, v) == Entry(b, c, v);
      }
    }
  }

  /** Indexing the same event twice leaves the indices as indexing it once. */
  lemma IndexRecordIdempotent(ixs: Indices, e: Record)
    ensures IndexRecord(IndexRecord(ixs, e), e) == IndexRecord(ixs, e)
  {
    var once := IndexRecord(ixs, e);
    var twice := IndexRecord(once, e);
    IndexRecordEffect(ixs, e);
    IndexRecordEffect(once, e);
    forall c, v
      ensures Entry(twice, c, v) == Entry(once, c, v)
    {
      if c != Stb && v == e.Get(c) {
        assert ListOr(Entry(once, c, v)) == WithId(ListOr(Entry(ixs, c, v)), e.stb);
      }
    }
    EntriesDetermine(twice, once);
  }
}
