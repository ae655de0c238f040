/**
 * The data directory as a whole: the entity documents and the column indices
 * that `Common/functions.py` reads and rewrites, the functions of that file
 * as methods on them, and the consistency they keep between the two.
 */
module DataStore {
  import opened Types
  import opened OrderedDict
  import opened RecordStore
  import opened IndexManager
  import opened QueryEngine
  import opened Ordering

  /** Each of the five values of an event lists the event's entity id. */
  ghost predicate EventIndexed(ixs: Indices, r: Record)
  {
    forall c :: c != Stb ==> Indexed(ixs, c, r.Get(c), r.stb)
  }

  /**
   * What every ingestion keeps: documents are well formed and carry their own
   * id, there is never an index of the id column, index lists have no
   * duplicates, every indexed id has a document, and every stored event is
   * listed in the index of each of its five values. The converse does not
   * hold: an overwritten value stays listed.
   */
  ghost predicate StoreInvariant(docs: Docs, ixs: Indices)
  {
    && DocsOwnIds(docs)
    && Stb !in ixs
    && NoDuplicates(ixs)
    && IdsStored(docs, ixs)
    && EventsIndexed(docs, ixs)
  }

  ghost predicate DocsOwnIds(docs: Docs)
  {
    forall id :: id in docs ==> DocValid(docs[id]) && docs[id].stb == id
  }

  ghost predicate IdsStored(docs: Docs, ixs: Indices)
  {
    forall c, v, id :: Indexed(ixs, c, v, id) ==> id in docs
  }

  ghost predicate EventsIndexed(docs: Docs, ixs: Indices)
  {
    forall id, d, t :: id in docs && HasSlot(docs[id], d, t) ==> EventIndexed(ixs, EntryAt(docs[id], d, t))
  }

  lemma IngestedEventIndexed(docs: Docs, ixs: Indices, e: Record)
    requires StoreInvariant(docs, ixs)
    ensures EventsIndexed(Ingest(docs, e), IndexRecord(ixs, e))
  {
    var docs', ixs' := Ingest(docs, e), IndexRecord(ixs, e);
    IndexRecordMembership(ixs, e);
    IndexRecordGrows(ixs, e);
    forall id, d, t | id in docs' && HasSlot(docs'[id], d, t)
      ensures EventIndexed(ixs', EntryAt(docs'[id], d, t))
    {
      if id == e.stb && d == e.date && t == e.title {
        assert EntryAt(docs'[id], d, t) == e;
      } else {
        assert id in docs && HasSlot(docs[id], d, t);
        assert EntryAt(docs'[id], d, t) == EntryAt(docs[id], d, t);
        var r := EntryAt(docs[id], d, t);
        assert EventIndexed(ixs, r);
        forall c | c != Stb
          ensures Indexed(ixs', c, r.Get(c), r.stb)
        {
          assert Indexed(ixs, c, r.Get(c), r.stb);
        }
      }
    }
  }

  lemma IndexedIdsStored(docs: Docs, ixs: Indices, e: Record)
    requires DocsOwnIds(docs) && IdsStored(docs, ixs)
    ensures IdsStored(Ingest(docs, e), IndexRecord(ixs, e))
  {
    var ixs' := IndexRecord(ixs, e);
    IndexRecordEffect(ixs, e);
    forall c, v, id | Indexed(ixs', c, v, id)
      ensures id in docs || id == e.stb
    {
      assert Entry(ixs', c, v).Some? && id in Entry(ixs', c, v).value;
      if c != Stb && v == e.Get(c) {
        if id != e.stb {
          assert id in ListOr(Entry(ixs, c, v));
          assert Indexed(ixs, c, v, id);
        }
      } else {
        assert Entry(ixs', c, v) == Entry(ixs, c, v);
        assert Indexed(ixs, c, v, id);
      }
    }
  }

  lemma IngestKeepsOwnIds(docs: Docs, e: Record)
    requires DocsOwnIds(docs)
    ensures DocsOwnIds(Ingest(docs, e))
  {
  }

  lemma IndexRecordKeepsStb(ixs: Indices, e: Record)
    requires Stb !in ixs
    ensures Stb !in IndexRecord(ixs, e)
  {
    IndexRecordEffect(ixs, e);
  }

  /** `add_data` keeps the store invariant. */
  lemma IngestPreservesInvariant(docs: Docs, ixs: Indices, e: Record)
    requires StoreInvariant(docs, ixs)
    ensures StoreInvariant(Ingest(docs, e), IndexRecord(ixs, e))
  {
    IngestKeepsOwnIds(docs, e);
    IndexRecordKeepsStb(ixs, e);
    IndexRecordNoDuplicates(ixs, e);
    IndexedIdsStored(docs, ixs, e);
    IngestedEventIndexed(docs, ixs, e);
  }

  /**
   * The data directory of `Common/functions.py`: the entity documents
   * (`<stb>.json`) and the column indices (`<column>_index.json`).
   */
  class Store {
    var docs: Docs
    var indices: Indices

    ghost predicate Valid()
      reads this
    {
      StoreInvariant(docs, indices)
    }

    /** An empty data directory. */
    constructor ()
      ensures Valid() && docs == map[] && indices == map[]
    {
      docs := map[];
      indices := map[];
    }

    /** `create_indices(new_data)` */
    method CreateIndices(e: Record)
      modifies this
      ensures docs == old(docs)
      ensures indices == IndexRecord(old(indices), e)
    {
      for i := 0 to |IndexedColumns|
        invariant docs == old(docs)
        invariant indices == IndexColumns(old(indices), e, IndexedColumns[..i])
      {
        var column := IndexedColumns[i];
        var key := e.Get(column);
        var data := LoadIndex(indices, column);
        if key !in data {
          data := data[key := []];
        }
        if e.stb !in data[key] {
          data := data[key := data[key] + [e.stb]];
        }
        IndexColumnsStep(old(indices), e, IndexedColumns, i);
        indices := indices[column := data];
      }
      assert IndexedColumns[..|IndexedColumns|] == IndexedColumns;
    }

    /** `add_data(new_data)`: write the event's slot, then update the indices. */
    method AddData(e: Record)
      requires Valid()
      modifies this
      ensures Valid()
      ensures docs == Ingest(old(docs), e)
      ensures indices == IndexRecord(old(indices), e)
    {
      var existing := if e.stb in docs then docs[e.stb] else NewDoc(e.stb);
      var days := existing.days;
      ghost var day0 := if e.date in days.entries then days.entries[e.date] else Empty();
      if e.date !in days.entries {
        days := Put(days, e.date, Empty());
      }
      var day := Put(days.entries[e.date], e.title, Slot(e.rev, e.time, e.provider));
      PutOverwrites(existing.days, e.date, day0, day);
      days := Put(days, e.date, day);
      docs := docs[e.stb := Doc(existing.stb, days)];
      IngestPreservesInvariant(old(docs), old(indices), e);
      CreateIndices(e);
    }

    /** `get_filtered_stb(filter_by)` */
    method GetFilteredStb(filter: Filter) returns (result: Result<set<string>>)
      ensures result == Candidates(docs, indices, filter)
    {
      if filter.None? {
        var ids: set<string> := {};
        var files := Listing(docs, indices);
        ghost var seen: set<string> := {};
        while files != {}
          invariant files + seen == Listing(docs, indices) && files !! seen
          invariant ids == ScanIds(seen)
          decreases files
        {
          var file :| file in files;
          if StartsWith(file, "stb") {
            ids := ids + {Stem(file)};
          }
          files := files - {file};
          seen := seen + {file};
        }
        result := Ok(ids);
      } else if filter.value.0 == Stb {
        result := Ok({filter.value.1});
      } else {
        var (key, value) := filter.value;
        if key !in indices {
          result := Err(MissingIndex(key));
        } else {
          var indexData := indices[key];
          if value in indexData {
            result := Ok(set id | id in indexData[value]);
          } else {
            result := Ok({});
          }
        }
      }
    }

    /** `get_data(stb_ids, select, filter_by, order)`, the ids taken in the order `ids` lists them. */
    method GetData(ids: seq<string>, select: seq<Column>, filter: Filter, order: seq<Column>)
      returns (result: Result<seq<Row>>)
      requires Valid()
      requires forall i, j :: 0 <= i < j < |ids| ==> ids[i] != ids[j]
      ensures result == QueryResult(docs, ids, select, filter, order)
    {
      var filtered: seq<Record> := [];
      for i := 0 to |ids|
        invariant Gather(docs, ids[..i], filter) == Ok(filtered)
      {
        var id := ids[i];
        assert ids[..i + 1][..i] == ids[..i];
        if id !in docs {
          GatherStopsAtMissing(docs, ids, i + 1, filter);
          return Err(MissingDoc(id));
        }
        var rows := GetDataMatchingFilter(filter, docs[id]);
        filtered := filtered + rows;
      }
      assert ids[..|ids|] == ids;
      var projected := Selected(filtered, select);
      forall k | 0 <= k < |projected|
        ensures projected[k] == Project(filtered[k], select)
      {
        assert projected[k].Keys == Project(filtered[k], select).Keys;
      }
      assert projected == ProjectAll(filtered, select);
      if order == [] {
        return Ok(projected);
      }
      var decorated := Decorate(projected, order);
      match decorated
      case Err(e) =>
        return Err(e);
      case Ok(ps) =>
        return Ok(Undecorate(StableSort(ps)));
    }
  }

  lemma IndexColumnsStep(ixs: Indices, e: Record, cols: seq<Column>, i: nat)
    requires i < |cols|
    ensures IndexColumns(ixs, e, cols[..i + 1])
         == IndexColumn(IndexColumns(ixs, e, cols[..i]), cols[i], e.Get(cols[i]), e.stb)
  {
    assert cols[..i + 1][..i] == cols[..i];
  }

  /** Once loading fails, the rest of the ids are never reached. */
  lemma {:induction false} GatherStopsAtMissing(docs: Docs, ids: seq<string>, k: nat, filter: Filter)
    requires DocsValid(docs)
    requires k <= |ids| && Gather(docs, ids[..k], filter).Err?
    ensures Gather(docs, ids, filter) == Gather(docs, ids[..k], filter)
    decreases |ids| - k
  {
    if k < |ids| {
      var ids' := ids[..|ids| - 1];
      assert ids'[..k] == ids[..k];
      GatherStopsAtMissing(docs, ids', k, filter);
    } else {
      assert ids[..k] == ids;
    }
  }

  // ---------------------------------------------------------------------------
  // What the store promises its callers

  /**
   * A filter on an indexed column fails only when that column's index file
   * does not exist yet, and every id it reports has a document.
   */
  lemma IndexCandidatesStored(docs: Docs, ixs: Indices, c: Column, v: string)
    requires StoreInvariant(docs, ixs) && c != Stb
    ensures Candidates(docs, ixs, Some((c, v))).Err? <==> c !in ixs
    ensures Candidates(docs, ixs, Some((c, v))).Ok? ==>
              forall id :: id in Candidates(docs, ixs, Some((c, v))).value ==> id in docs
  {
    if c in ixs && v in ixs[c] {
      forall id | id in ixs[c][v]
        ensures id in docs
      {
        assert Indexed(ixs, c, v, id);
      }
    }
  }

  /**
   * Loading the documents of the ids that an index filter reported, in any
   * order, never fails.
   */
  lemma IndexQueryLoads(docs: Docs, ixs: Indices, c: Column, v: string, ids: seq<string>)
    requires StoreInvariant(docs, ixs) && c != Stb
    requires Candidates(docs, ixs, Some((c, v))).Ok?
    requires forall id :: id in ids ==> id in Candidates(docs, ixs, Some((c, v))).value
    ensures Gather(docs, ids, Some((c, v))).Ok?
  {
    IndexCandidatesStored(docs, ixs, c, v);
    assert forall i :: 0 <= i < |ids| ==> ids[i] in docs;
  }

  /**
   * Every stored event is found again: filtering on any of its six values
   * reports its entity id, and the rows then loaded for any enumeration of
   * the reported ids include the event.
   */
  lemma StoredEventFound(docs: Docs, ixs: Indices, id: string, d: string, t: string, c: Column)
    requires StoreInvariant(docs, ixs)
    requires id in docs && HasSlot(docs[id], d, t)
    ensures var f := (c, EntryAt(docs[id], d, t).Get(c));
            Candidates(docs, ixs, Some(f)).Ok? && id in Candidates(docs, ixs, Some(f)).value
  {
    var r := EntryAt(docs[id], d, t);
    if c != Stb {
      assert EventIndexed(ixs, r);
      assert Indexed(ixs, c, r.Get(c), id);
    }
  }

  lemma StoredEventLoaded(docs: Docs, ixs: Indices, id: string, d: string, t: string, c: Column, ids: seq<string>)
    requires StoreInvariant(docs, ixs)
    requires id in docs && HasSlot(docs[id], d, t)
    requires id in ids && forall x :: x in ids ==> x in docs
    ensures var f := (c, EntryAt(docs[id], d, t).Get(c));
            Gather(docs, ids, Some(f)).Ok? && EntryAt(docs[id], d, t) in Gather(docs, ids, Some(f)).value
  {
    var r := EntryAt(docs[id], d, t);
    var f := (c, r.Get(c));
    assert forall i :: 0 <= i < |ids| ==> ids[i] in docs;
    var i :| 0 <= i < |ids| && ids[i] == id;
    MatchingRowsExact(Some(f), docs[id]);
    GatherRows(docs, ids, Some(f), r);
  }

  /**
   * When every stored id starts with "stb" and has no dot, the full scan
   * reports exactly the stored entities.
   */
  lemma FullScanReturnsAll(docs: Docs, ixs: Indices)
    requires StoreInvariant(docs, ixs)
    requires forall id :: id in docs ==> StartsWith(id, "stb") && '.' !in id
    ensures Candidates(docs, ixs, None) == Ok(docs.Keys)
  {
    FullScanIds(docs, ixs);
    forall id | id in docs
      ensures Stem(DocFile(id)) == id
    {
      StemOfDocFile(id);
    }
    assert ScannedDocIds(docs) == docs.Keys;
  }

  /**
   * After one event has been added, every indexed column has its index file,
   * so a filter on a value no event carried gives no ids rather than an error.
   */
  lemma IngestCreatesIndices(docs: Docs, ixs: Indices, e: Record, c: Column, v: string)
    requires c != Stb
    ensures Candidates(docs, IndexRecord(ixs, e), Some((c, v))).Ok?
    ensures v != e.Get(c) && Entry(ixs, c, v).None? ==>
              Candidates(docs, IndexRecord(ixs, e), Some((c, v))) == Ok({})
  {
    var r := IndexRecord(ixs, e);
    IndexRecordEffect(ixs, e);
    assert c in r;
    if v != e.Get(c) && Entry(ixs, c, v).None? {
      assert Entry(r, c, v) == Entry(ixs, c, v);
      assert v !in r[c];
    }
  }

  /** Before any event was added no index file exists: an index filter raises. */
  lemma EmptyStoreFilterFails(c: Column, v: string)
    requires c != Stb
    ensures Candidates(map[], map[], Some((c, v))) == Err(MissingIndex(c))
    ensures Candidates(map[], map[], None) == Ok({})
  {
    assert Listing(map[], map[]) == {};
    assert ScanIds({}) == {};
  }

  /**
   * Reading an entity back right after an event was added to it gives the
   * event itself as the only row of its (date, title) slot.
   */
  lemma IngestThenRead(docs: Docs, e: Record)
    requires DocsOwnIds(docs)
    ensures var doc := Ingest(docs, e)[e.stb];
      && e in MatchingRows(None, doc)
      && forall r :: r in MatchingRows(None, doc) && r.date == e.date && r.title == e.title ==> r == e
  {
    var doc := Ingest(docs, e)[e.stb];
    assert EntryAt(doc, e.date, e.title) == e;
    MatchingRowsExact(None, doc);
  }

  /**
   * Two events for the same (entity, date, title): the entity then reads back
   * as one row for that slot, carrying the second event's values.
   */
  lemma LastWriteRead(docs: Docs, e1: Record, e2: Record)
    requires DocsOwnIds(docs)
    requires e1.stb == e2.stb && e1.date == e2.date && e1.title == e2.title
    ensures var doc := Ingest(Ingest(docs, e1), e2)[e2.stb];
      && e2 in MatchingRows(None, doc)
      && forall r :: r in MatchingRows(None, doc) && r.date == e2.date && r.title == e2.title ==> r == e2
  {
    IngestOverwrites(docs, e1, e2);
    IngestThenRead(docs, e2);
  }

  lemma {:induction false} DistinctCountsOnce(s: seq<string>, x: string)
    requires Distinct(s) && x in s
    ensures multiset(s)[x] == 1
    decreases |s|
  {
    var s', y := s[..|s| - 1], s[|s| - 1];
    assert s == s' + [y];
    if x == y {
      assert x !in s';
    } else {
      DistinctCountsOnce(s', x);
    }
  }

  /** Adding the same event twice leaves documents and indices as adding it once. */
  lemma AddDataIdempotent(docs: Docs, ixs: Indices, e: Record)
    requires StoreInvariant(docs, ixs)
    ensures Ingest(Ingest(docs, e), e) == Ingest(docs, e)
    ensures IndexRecord(IndexRecord(ixs, e), e) == IndexRecord(ixs, e)
  {
    IngestIdempotent(docs, e);
    IndexRecordIdempotent(ixs, e);
  }

  /** After an event is added its entity is listed exactly once under each of its values. */
  lemma AddDataListsOnce(ixs: Indices, e: Record, c: Column)
    requires NoDuplicates(ixs) && c != Stb
    ensures var r := IndexRecord(ixs, e);
      c in r && e.Get(c) in r[c] && multiset(r[c][e.Get(c)])[e.stb] == 1
  {
    var r := IndexRecord(ixs, e);
    IndexRecordMembership(ixs, e);
    IndexRecordNoDuplicates(ixs, e);
    assert Indexed(r, c, e.Get(c), e.stb);
    DistinctCountsOnce(r[c][e.Get(c)], e.stb);
  }

  /** A single row that has every order column comes back unchanged. */
  lemma OrderSingleRow(row: Row, order: seq<Column>)
    requires order != [] && forall c :: c in order ==> c in row
    ensures OrderRows([row], order) == Ok([row])
  {
    var k := KeyOf(row, order).value;
    var d := Decorate([row], order);
    assert d.Ok? && |d.value| == 1 && d.value[0] == (k, row);
    assert d.value == [(k, row)];
    assert [(k, row)][..0] == [];
    assert StableSort([(k, row)]) == [(k, row)];
    assert Undecorate([(k, row)]) == [row];
  }

  /** The documents and indices after one event is added to the empty store. */
  function OneEventDocs(e: Record): Docs { Ingest(map[], e) }
  function OneEventIndices(e: Record): Indices { IndexRecord(map[], e) }

  /** After one event, each of its values lists just its entity, and any other value lists nothing. */
  lemma OneEventCandidates(e: Record, c: Column, v: string)
    requires c != Stb
    ensures Candidates(OneEventDocs(e), OneEventIndices(e), Some((c, v)))
         == if v == e.Get(c) then Ok({e.stb}) else Ok({})
  {
    var ixs := OneEventIndices(e);
    IndexRecordEffect(map[], e);
    assert Entry(map[], c, v) == None;
    assert c in ixs;
    if v == e.Get(c) {
      assert WithId([], e.stb) == [e.stb];
      assert Entry(ixs, c, v) == Some([e.stb]);
      assert (set id | id in [e.stb]) == {e.stb};
    } else {
      assert Entry(ixs, c, v) == None;
    }
  }

  /** The document of an entity that has exactly one event. */
  function SingleSlotDoc(e: Record): Doc
  {
    Doc(e.stb, Dict([e.date], map[e.date := Dict([e.title], map[e.title := SlotOf(e)])]))
  }

  lemma OneEventDoc(e: Record)
    ensures OneEventDocs(e) == map[e.stb := SingleSlotDoc(e)]
  {
    var day: Dict<Slot> := Empty();
    var days: Dict<Dict<Slot>> := Empty();
    assert Put(day, e.title, SlotOf(e)) == Dict([e.title], map[e.title := SlotOf(e)]);
    assert Put(days, e.date, Dict([e.title], map[e.title := SlotOf(e)])) == SingleSlotDoc(e).days;
    assert WriteSlot(NewDoc(e.stb), e) == SingleSlotDoc(e);
  }

  lemma SingleSlotRows(e: Record, f: (Column, string))
    ensures DocValid(SingleSlotDoc(e))
    ensures MatchingRows(Some(f), SingleSlotDoc(e)) == if e.Get(f.0) == f.1 then [e] else []
  {
    var doc := SingleSlotDoc(e);
    assert DocValid(doc);
    assert EntryAt(doc, e.date, e.title) == e;
    assert [e.title][..0] == [];
    assert TitleRows(doc, e.date, [e.title], f) == Keep(e, f);
    assert TitlesOf(doc, e.date) == [e.title];
    assert [e.date][..0] == [];
    assert DateRows(doc, [e.date], f) == Keep(e, f);
  }

  /** After one event, its entity reads back as that event alone, whatever the filter it passes. */
  lemma OneEventRows(e: Record, f: (Column, string))
    requires e.Get(f.0) == f.1
    ensures Gather(OneEventDocs(e), [e.stb], Some(f)) == Ok([e])
  {
    var docs := OneEventDocs(e);
    OneEventDoc(e);
    SingleSlotRows(e, f);
    assert docs[e.stb] == SingleSlotDoc(e);
    assert [e.stb][..0] == [];
    assert Gather(docs, [], Some(f)) == Ok([]);
    assert [] + [e] == [e];
  }

  /**
   * An overwritten value stays listed in its index: after a second event for
   * the same slot with another provider, the first provider still reports the
   * entity.
   */
  lemma StaleEntryListed(e1: Record, e2: Record)
    requires e1.provider != e2.provider
    ensures Candidates(Ingest(Ingest(map[], e1), e2), IndexRecord(IndexRecord(map[], e1), e2),
                       Some((Provider, e1.provider))) == Ok({e1.stb})
  {
    var ixs1 := IndexRecord(map[], e1);
    OneEventCandidates(e1, Provider, e1.provider);
    IndexColumnsEntry(ixs1, e2, IndexedColumns, Provider, e1.provider);
    assert Entry(IndexRecord(ixs1, e2), Provider, e1.provider) == Entry(ixs1, Provider, e1.provider);
  }

  /**
   * Loading the entity that a stale entry reports gives no row, since the rows
   * of a document are filtered again.
   */
  lemma StaleEntryGivesNoRows(e1: Record, e2: Record)
    requires e1.stb == e2.stb && e1.date == e2.date && e1.title == e2.title
    requires e1.provider != e2.provider
    ensures Gather(Ingest(Ingest(map[], e1), e2), [e1.stb], Some((Provider, e1.provider))) == Ok([])
  {
    var f := (Provider, e1.provider);
    IngestOverwrites(map[], e1, e2);
    OneEventDoc(e2);
    SingleSlotRows(e2, f);
    assert [e1.stb][..0] == [];
    assert Gather(OneEventDocs(e2), [], Some(f)) == Ok([]);
  }

  /** The event of the worked example below. */
  function ExampleEvent(): Record
  {
    Record("stb1", "2017-04-01", "Titanic", "Paramount", "6.00", "12:30")
  }

  /** With one event stored, its provider finds its entity and another provider finds none. */
  lemma SingleEventCandidates()
    ensures var docs, ixs := OneEventDocs(ExampleEvent()), OneEventIndices(ExampleEvent());
      && Candidates(docs, ixs, Some((Provider, "Paramount"))) == Ok({"stb1"})
      && Candidates(docs, ixs, Some((Provider, "Fox"))) == Ok({})
  {
    OneEventCandidates(ExampleEvent(), Provider, "Paramount");
    OneEventCandidates(ExampleEvent(), Provider, "Fox");
  }

  /**
   * With one event stored, querying its entity through the provider filter,
   * selecting the id and the revenue and ordering by id, gives one row.
   */
  lemma SingleEventQuery()
    ensures QueryResult(OneEventDocs(ExampleEvent()), ["stb1"], [Stb, Rev], Some((Provider, "Paramount")), [Stb])
         == Ok([map[Stb := "stb1", Rev := "6.00"]])
  {
    var e := ExampleEvent();
    OneEventRows(e, (Provider, "Paramount"));
    var row := map[Stb := "stb1", Rev := "6.00"];
    ExampleProjection();
    OrderSingleRow(row, [Stb]);
  }

  lemma ExampleProjection()
    ensures ProjectAll([ExampleEvent()], [Stb, Rev]) == [map[Stb := "stb1", Rev := "6.00"]]
  {
    var row := map[Stb := "stb1", Rev := "6.00"];
    assert Project(ExampleEvent(), [Stb, Rev]) == row;
  }
}
