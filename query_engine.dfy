/**
 * The query engine: candidate resolution (`get_filtered_stb`), flattening and
 * re-filtering of a document (`get_data_matching_filter`), projection
 * (`selected`) and the whole pipeline with its ordering (`get_data`).
 */
module QueryEngine {
  import opened Types
  import opened OrderedDict
  import opened Ordering
  import opened RecordStore
  import opened IndexManager

  /** `filter_by`: empty, or one `(column, value)` pair. */
  type Filter = Option<(Column, string)>

  // ---------------------------------------------------------------------------
  // Candidate resolution

  predicate StartsWith(s: string, prefix: string)
  {
    |prefix| <= |s| && s[..|prefix|] == prefix
  }

  /** `name.split('.')[0]`: the part of a file name before its first dot. */
  function Stem(name: string): (r: string)
    ensures |r| <= |name| && r == name[..|r|]
    ensures '.' !in r
    ensures |r| < |name| ==> name[|r|] == '.'
  {
    if name == [] || name[0] == '.' then []
    else [name[0]] + Stem(name[1..])
  }

  /** The file holding an entity's document. */
  function DocFile(id: string): string
  {
    id + ".json"
  }

  /** The file holding a column's index. */
  function IndexFile(c: Column): string
  {
    ColumnName(c) + "_index.json"
  }

  /** `os.listdir(DIR)`: one file per document and one per existing index. */
  function Listing(docs: Docs, ixs: Indices): set<string>
  {
    (set id | id in docs :: DocFile(id)) + (set c | c in ixs :: IndexFile(c))
  }

  /** The ids the full scan collects from a set of file names. */
  function ScanIds(files: set<string>): set<string>
  {
    set f | f in files && StartsWith(f, "stb") :: Stem(f)
  }

  /**
   * `get_filtered_stb`: no filter scans every document file; a filter on the
   * id itself needs no index; any other filter reads the column's index, which
   * fails when that index file does not exist and gives no ids when the value
   * is not a key of it.
   */
  function Candidates(docs: Docs, ixs: Indices, filter: Filter): Result<set<string>>
  {
    match filter
    case None => Ok(ScanIds(Listing(docs, ixs)))
    case Some((c, v)) =>
      if c == Stb then Ok({v})
      else if c !in ixs then Err(MissingIndex(c))
      else if v !in ixs[c] then Ok({})
      else Ok(set id | id in ixs[c][v])
  }

  /** Only an index of the id column would be picked up by the scan, and there is none. */
  lemma IndexFileNotScanned(c: Column)
    requires c != Stb
    ensures !StartsWith(IndexFile(c), "stb")
  {
    assert IndexFile(c)[0] != 's';
  }

  lemma {:induction false} StemOfDocFile(id: string)
    requires '.' !in id
    ensures Stem(DocFile(id)) == id
    decreases |id|
  {
    if id != [] {
      assert DocFile(id)[1..] == DocFile(id[1..]);
      StemOfDocFile(id[1..]);
    }
  }

  lemma DocFilePrefix(id: string)
    ensures StartsWith(DocFile(id), "stb") <==> StartsWith(id, "stb")
  {
    if |id| < 3 {
      assert DocFile(id)[|id|] == '.';
    } else {
      assert DocFile(id)[..3] == id[..3];
    }
  }

  /** The ids of the stored entities that the full scan reports. */
  function ScannedDocIds(docs: Docs): set<string>
  {
    set id | id in docs && StartsWith(id, "stb") :: Stem(DocFile(id))
  }

  /**
   * The full scan reports, for each stored entity whose id starts with "stb",
   * the part of its id before the first dot, and nothing else: the index files
   * in the same directory never start with "stb".
   */
  lemma FullScanIds(docs: Docs, ixs: Indices)
    requires Stb !in ixs
    ensures Candidates(docs, ixs, None) == Ok(ScannedDocIds(docs))
  {
    var scanned := ScanIds(Listing(docs, ixs));
    var expected := ScannedDocIds(docs);
    forall x | x in scanned
      ensures x in expected
    {
      var f :| f in Listing(docs, ixs) && StartsWith(f, "stb") && x == Stem(f);
      if f in (set c | c in ixs :: IndexFile(c)) {
        var c :| c in ixs && f == IndexFile(c);
        IndexFileNotScanned(c);
      } else {
        var id :| id in docs && f == DocFile(id);
        DocFilePrefix(id);
      }
    }
    forall x | x in expected
      ensures x in scanned
    {
      var id :| id in docs && StartsWith(id, "stb") && x == Stem(DocFile(id));
      DocFilePrefix(id);
      assert DocFile(id) in Listing(docs, ixs);
    }
    assert scanned == expected;
  }

  /** An entity whose id starts with "stb" and has no dot is found by the full scan. */
  lemma FullScanFinds(docs: Docs, ixs: Indices, id: string)
    requires Stb !in ixs
    requires id in docs && StartsWith(id, "stb") && '.' !in id
    ensures Candidates(docs, ixs, None).Ok? && id in Candidates(docs, ixs, None).value
  {
    FullScanIds(docs, ixs);
    StemOfDocFile(id);
  }

  // ---------------------------------------------------------------------------
  // Flattening a document

  /** The flattened row of one (date, title) slot. */
  function EntryAt(doc: Doc, date: string, title: string): (r: Record)
    requires HasSlot(doc, date, title)
  {
    var s := SlotAt(doc, date, title);
    Record(doc.stb, date, title, s.provider, s.rev, s.time)
  }

  /** `[entry] if entry[name] == value else []` */
  function Keep(r: Record, f: (Column, string)): seq<Record>
  {
    if r.Get(f.0) == f.1 then [r] else []
  }

  /** The row of one slot if it passes the filter (none for a slot the document lacks). */
  function SlotRow(doc: Doc, date: string, title: string, f: (Column, string)): seq<Record>
  {
    if HasSlot(doc, date, title) then Keep(EntryAt(doc, date, title), f) else []
  }

  /** The kept rows of one date, its titles taken in order. */
  function TitleRows(doc: Doc, date: string, titles: seq<string>, f: (Column, string)): seq<Record>
    decreases |titles|
  {
    if titles == [] then []
    else TitleRows(doc, date, titles[..|titles| - 1], f) + SlotRow(doc, date, titles[|titles| - 1], f)
  }

  /** The titles of one date in insertion order (none for a date the document lacks). */
  function TitlesOf(doc: Doc, date: string): seq<string>
  {
    if date in doc.days.entries then doc.days.entries[date].keys else []
  }

  /** The kept rows of the dates `dates`, taken in order. */
  function DateRows(doc: Doc, dates: seq<string>, f: (Column, string)): seq<Record>
    decreases |dates|
  {
    if dates == [] then []
    else
      var d := dates[|dates| - 1];
      DateRows(doc, dates[..|dates| - 1], f) + TitleRows(doc, d, TitlesOf(doc, d), f)
  }

  /** With no filter, the source filters on the document's own id, which every row has. */
  function EffectiveFilter(filter: Filter, doc: Doc): (Column, string)
  {
    if filter.Some? then filter.value else (Stb, doc.stb)
  }

  /** The specification of `get_data_matching_filter`. */
  function MatchingRows(filter: Filter, doc: Doc): seq<Record>
    requires DocValid(doc)
  {
    DateRows(doc, doc.days.keys, EffectiveFilter(filter, doc))
  }

  /** No two rows come from the same (date, title) slot. */
  predicate SlotsDistinct(rows: seq<Record>)
  {
    forall i, j :: 0 <= i < j < |rows| ==> rows[i].date != rows[j].date || rows[i].title != rows[j].title
  }

  lemma {:induction false} TitleRowsSound(doc: Doc, date: string, titles: seq<string>, f: (Column, string), r: Record)
    requires r in TitleRows(doc, date, titles, f)
    ensures r.date == date && r.title in titles && HasSlot(doc, date, r.title)
    ensures r == EntryAt(doc, date, r.title) && r.Get(f.0) == f.1
    decreases |titles|
  {
    var titles' := titles[..|titles| - 1];
    if r in TitleRows(doc, date, titles', f) {
      TitleRowsSound(doc, date, titles', f, r);
    }
  }

  lemma {:induction false} DateRowsSound(doc: Doc, dates: seq<string>, f: (Column, string), r: Record)
    requires r in DateRows(doc, dates, f)
    ensures r.date in dates && HasSlot(doc, r.date, r.title)
    ensures r == EntryAt(doc, r.date, r.title) && r.Get(f.0) == f.1
    decreases |dates|
  {
    var dates', d := dates[..|dates| - 1], dates[|dates| - 1];
    if r in DateRows(doc, dates', f) {
      DateRowsSound(doc, dates', f, r);
    } else {
      TitleRowsSound(doc, d, TitlesOf(doc, d), f, r);
    }
  }

  lemma {:induction false} TitleRowsComplete(doc: Doc, date: string, titles: seq<string>, f: (Column, string), t: string)
    requires t in titles && HasSlot(doc, date, t) && EntryAt(doc, date, t).Get(f.0) == f.1
    ensures EntryAt(doc, date, t) in TitleRows(doc, date, titles, f)
    decreases |titles|
  {
    var titles' := titles[..|titles| - 1];
    if t != titles[|titles| - 1] {
      assert titles == titles' + [titles[|titles| - 1]];
      TitleRowsComplete(doc, date, titles', f, t);
    }
  }

  lemma {:induction false} DateRowsComplete(doc: Doc, dates: seq<string>, f: (Column, string), d: string, t: string)
    requires DocValid(doc)
    requires d in dates && HasSlot(doc, d, t) && EntryAt(doc, d, t).Get(f.0) == f.1
    ensures EntryAt(doc, d, t) in DateRows(doc, dates, f)
    decreases |dates|
  {
    var dates' := dates[..|dates| - 1];
    if d != dates[|dates| - 1] {
      assert dates == dates' + [dates[|dates| - 1]];
      DateRowsComplete(doc, dates', f, d, t);
    } else {
      TitleRowsComplete(doc, d, TitlesOf(doc, d), f, t);
    }
  }

  lemma {:induction false} TitleRowsDistinct(doc: Doc, date: string, titles: seq<string>, f: (Column, string))
    requires forall i, j :: 0 <= i < j < |titles| ==> titles[i] != titles[j]
    ensures SlotsDistinct(TitleRows(doc, date, titles, f))
    decreases |titles|
  {
    if titles != [] {
      var titles', t := titles[..|titles| - 1], titles[|titles| - 1];
      var prev := TitleRows(doc, date, titles', f);
      TitleRowsDistinct(doc, date, titles', f);
      forall i | 0 <= i < |prev|
        ensures prev[i].title != t
      {
        TitleRowsSound(doc, date, titles', f, prev[i]);
      }
    }
  }

  lemma {:induction false} DateRowsDistinct(doc: Doc, dates: seq<string>, f: (Column, string))
    requires DocValid(doc)
    requires forall i, j :: 0 <= i < j < |dates| ==> dates[i] != dates[j]
    ensures SlotsDistinct(DateRows(doc, dates, f))
    decreases |dates|
  {
    if dates != [] {
      var dates', d := dates[..|dates| - 1], dates[|dates| - 1];
      var prev := DateRows(doc, dates', f);
      var day := TitleRows(doc, d, TitlesOf(doc, d), f);
      DateRowsDistinct(doc, dates', f);
      TitleRowsDistinct(doc, d, TitlesOf(doc, d), f);
      forall i, j | 0 <= i < |prev| && 0 <= j < |day|
        ensures prev[i].date != day[j].date
      {
        DateRowsSound(doc, dates', f, prev[i]);
        TitleRowsSound(doc, d, TitlesOf(doc, d), f, day[j]);
      }
      assert SlotsDistinct(prev + day);
    }
  }

  /**
   * What `get_data_matching_filter` returns: exactly the flattened rows of the
   * document's slots that pass the filter (all of them when there is none),
   * each carrying the document's id, one row per slot.
   */
  lemma MatchingRowsExact(filter: Filter, doc: Doc)
    requires DocValid(doc)
    ensures var f := EffectiveFilter(filter, doc);
      && (forall r :: r in MatchingRows(filter, doc) <==>
            HasSlot(doc, r.date, r.title) && r == EntryAt(doc, r.date, r.title) && r.Get(f.0) == f.1)
      && SlotsDistinct(MatchingRows(filter, doc))
  {
    var f := EffectiveFilter(filter, doc);
    forall r
      ensures r in MatchingRows(filter, doc) <==>
            HasSlot(doc, r.date, r.title) && r == EntryAt(doc, r.date, r.title) && r.Get(f.0) == f.1
    {
      if r in MatchingRows(filter, doc) {
        DateRowsSound(doc, doc.days.keys, f, r);
      } else if HasSlot(doc, r.date, r.title) && r == EntryAt(doc, r.date, r.title) && r.Get(f.0) == f.1 {
        DateRowsComplete(doc, doc.days.keys, f, r.date, r.title);
      }
    }
    DateRowsDistinct(doc, doc.days.keys, f);
  }

  /** Every row returned passes the filter and belongs to the document's entity. */
  lemma MatchingRowsFiltered(filter: Filter, doc: Doc)
    requires DocValid(doc)
    ensures forall r :: r in MatchingRows(filter, doc) ==>
              r.stb == doc.stb && (filter.Some? ==> r.Get(filter.value.0) == filter.value.1)
  {
    MatchingRowsExact(filter, doc);
  }

  /** With no filter, every slot of the document gives exactly one row. */
  lemma UnfilteredRowsAllSlots(doc: Doc)
    requires DocValid(doc)
    ensures forall d, t :: HasSlot(doc, d, t) ==> EntryAt(doc, d, t) in MatchingRows(None, doc)
    ensures SlotsDistinct(MatchingRows(None, doc))
  {
    MatchingRowsExact(None, doc);
  }

  lemma TitleRowsStep(doc: Doc, date: string, titles: seq<string>, j: nat, f: (Column, string))
    requires j < |titles|
    ensures TitleRows(doc, date, titles[..j + 1], f)
         == TitleRows(doc, date, titles[..j], f) + SlotRow(doc, date, titles[j], f)
  {
    assert titles[..j + 1][..j] == titles[..j];
  }

  lemma DateRowsStep(doc: Doc, dates: seq<string>, i: nat, f: (Column, string))
    requires i < |dates|
    ensures DateRows(doc, dates[..i + 1], f)
         == DateRows(doc, dates[..i], f) + TitleRows(doc, dates[i], TitlesOf(doc, dates[i]), f)
  {
    assert dates[..i + 1][..i] == dates[..i];
  }

  /** The inner loop of `get_data_matching_filter`: the kept rows of one date. */
  method DayRows(doc: Doc, date: string, f: (Column, string)) returns (rows: seq<Record>)
    requires DocValid(doc) && date in doc.days.entries
    ensures rows == TitleRows(doc, date, TitlesOf(doc, date), f)
  {
    rows := [];
    var day := doc.days.entries[date];
    var titles := day.keys;
    for j := 0 to |titles|
      invariant rows == TitleRows(doc, date, titles[..j], f)
    {
      var title := titles[j];
      var slot := day.entries[title];
      var entry := Record(doc.stb, date, title, slot.provider, slot.rev, slot.time);
      TitleRowsStep(doc, date, titles, j, f);
      assert HasSlot(doc, date, title) && entry == EntryAt(doc, date, title);
      rows := rows + (if entry.Get(f.0) == f.1 then [entry] else []);
    }
    assert titles[..|titles|] == titles;
  }

  /** `get_data_matching_filter` */
  method GetDataMatchingFilter(filter: Filter, doc: Doc) returns (result: seq<Record>)
    requires DocValid(doc)
    ensures result == MatchingRows(filter, doc)
  {
    result := [];
    var f := if filter.Some? then filter.value else (Stb, doc.stb);
    var dates := doc.days.keys;
    for i := 0 to |dates|
      invariant result == DateRows(doc, dates[..i], f)
    {
      var rows := DayRows(doc, dates[i], f);
      DateRowsStep(doc, dates, i, f);
      result := result + rows;
    }
    assert dates[..|dates|] == dates;
  }

  // ---------------------------------------------------------------------------
  // Projection

  /** `{key: entry[key] for key in select}` */
  function Project(r: Record, select: seq<Column>): (row: Row)
    ensures row.Keys == set c | c in select
    ensures forall c :: c in row ==> row[c] == r.Get(c)
  {
    map c | c in select :: r.Get(c)
  }

  /** `selected(data, select)` */
  method Selected(data: seq<Record>, select: seq<Column>) returns (result: seq<Row>)
    ensures |result| == |data|
    ensures forall i :: 0 <= i < |data| ==> result[i].Keys == (set c | c in select)
    ensures forall i, c :: 0 <= i < |data| && c in result[i] ==> result[i][c] == data[i].Get(c)
  {
    result := [];
    for i := 0 to |data|
      invariant |result| == i
      invariant forall k :: 0 <= k < i ==> result[k] == Project(data[k], select)
    {
      result := result + [Project(data[i], select)];
    }
  }

  /** The rows of `data` projected onto `select`, as `selected` computes them. */
  function ProjectAll(data: seq<Record>, select: seq<Column>): seq<Row>
  {
    seq(|data|, i requires 0 <= i < |data| => Project(data[i], select))
  }

  // ---------------------------------------------------------------------------
  // Ordering

  /** `tuple([x[y] for y in order])`, which fails on the first column `x` lacks. */
  function KeyOf(row: Row, order: seq<Column>): (r: Result<seq<string>>)
    ensures r.Ok? <==> forall c :: c in order ==> c in row
    ensures r.Ok? ==> |r.value| == |order| && forall k :: 0 <= k < |order| ==> r.value[k] == row[order[k]]
    ensures r.Err? ==> exists k :: 0 <= k < |order| && order[k] !in row && r.error == MissingKey(order[k])
                                   && forall m :: 0 <= m < k ==> order[m] in row
    decreases |order|
  {
    if order == [] then Ok([])
    else if order[0] !in row then Err(MissingKey(order[0]))
    else match KeyOf(row, order[1..])
      case Err(e) => Err(e)
      case Ok(rest) => Ok([row[order[0]]] + rest)
  }

  /** The keys of all rows, computed from the first row on before any comparison. */
  function Decorate(rows: seq<Row>, order: seq<Column>): (r: Result<seq<(seq<string>, Row)>>)
    ensures r.Ok? <==> forall i :: 0 <= i < |rows| ==> KeyOf(rows[i], order).Ok?
    ensures r.Ok? ==> (&& |r.value| == |rows|
                       && forall i :: 0 <= i < |rows| ==> r.value[i] == (KeyOf(rows[i], order).value, rows[i]))
    decreases |rows|
  {
    if rows == [] then Ok([])
    else match KeyOf(rows[0], order)
      case Err(e) => Err(e)
      case Ok(k) =>
        match Decorate(rows[1..], order)
        case Err(e) => Err(e)
        case Ok(rest) => Ok([(k, rows[0])] + rest)
  }

  function Undecorate(ps: seq<(seq<string>, Row)>): seq<Row>
  {
    seq(|ps|, i requires 0 <= i < |ps| => ps[i].1)
  }

  /** `result.sort(key=...) if order else result` */
  function OrderRows(rows: seq<Row>, order: seq<Column>): Result<seq<Row>>
  {
    if order == [] then Ok(rows)
    else match Decorate(rows, order)
      case Err(e) => Err(e)
      case Ok(ps) => Ok(Undecorate(StableSort(ps)))
  }

  // ---------------------------------------------------------------------------
  // The pipeline

  ghost predicate DocsValid(docs: Docs)
  {
    forall id :: id in docs ==> DocValid(docs[id])
  }

  /**
   * The loop of `get_data` over the candidate ids, in the order the set is
   * enumerated: loading a document that does not exist fails at the first
   * such id.
   */
  function Gather(docs: Docs, ids: seq<string>, filter: Filter): (r: Result<seq<Record>>)
    requires DocsValid(docs)
    ensures r.Err? <==> exists i :: 0 <= i < |ids| && ids[i] !in docs
    ensures r.Err? ==> exists i :: 0 <= i < |ids| && ids[i] !in docs && r.error == MissingDoc(ids[i])
                                   && forall j :: 0 <= j < i ==> ids[j] in docs
    decreases |ids|
  {
    if ids == [] then Ok([])
    else
      var id := ids[|ids| - 1];
      match Gather(docs, ids[..|ids| - 1], filter)
      case Err(e) => Err(e)
      case Ok(rows) =>
        if id !in docs then Err(MissingDoc(id))
        else Ok(rows + MatchingRows(filter, docs[id]))
  }

  /** The specification of `get_data(stb_ids, select, filter_by, order)`. */
  function QueryResult(docs: Docs, ids: seq<string>, select: seq<Column>, filter: Filter,
                       order: seq<Column>): Result<seq<Row>>
    requires DocsValid(docs)
  {
    match Gather(docs, ids, filter)
    case Err(e) => Err(e)
    case Ok(rows) => OrderRows(ProjectAll(rows, select), order)
  }

  /** The rows gathered are exactly the matching rows of the documents of `ids`. */
  lemma {:induction false} GatherRows(docs: Docs, ids: seq<string>, filter: Filter, r: Record)
    requires DocsValid(docs)
    requires Gather(docs, ids, filter).Ok?
    ensures r in Gather(docs, ids, filter).value <==>
              exists i :: 0 <= i < |ids| && r in MatchingRows(filter, docs[ids[i]])
    decreases |ids|
  {
    if ids != [] {
      var ids' := ids[..|ids| - 1];
      GatherRows(docs, ids', filter, r);
      if r in MatchingRows(filter, docs[ids[|ids| - 1]]) {
        assert 0 <= |ids| - 1 < |ids|;
      }
      if exists i :: 0 <= i < |ids| && r in MatchingRows(filter, docs[ids[i]]) {
        var i :| 0 <= i < |ids| && r in MatchingRows(filter, docs[ids[i]]);
        if i < |ids| - 1 {
          assert ids'[i] == ids[i];
        }
      }
    }
  }

  // ---------------------------------------------------------------------------
  // Properties of the pipeline

  /** Every pair carries the key of its row. */
  ghost predicate KeysOfRows(ps: seq<(seq<string>, Row)>, order: seq<Column>)
  {
    forall i :: 0 <= i < |ps| ==> KeyOf(ps[i].1, order) == Ok(ps[i].0)
  }

  lemma KeysOfRowsPermuted(ps: seq<(seq<string>, Row)>, qs: seq<(seq<string>, Row)>, order: seq<Column>)
    requires KeysOfRows(ps, order) && multiset(qs) == multiset(ps)
    ensures KeysOfRows(qs, order)
  {
    forall i | 0 <= i < |qs|
      ensures KeyOf(qs[i].1, order) == Ok(qs[i].0)
    {
      assert qs[i] in multiset(ps);
      var m :| 0 <= m < |ps| && ps[m] == qs[i];
    }
  }

  lemma RedecorateKeyed(qs: seq<(seq<string>, Row)>, order: seq<Column>)
    requires KeysOfRows(qs, order)
    ensures Decorate(Undecorate(qs), order) == Ok(qs)
  {
    var rows := Undecorate(qs);
    var d := Decorate(rows, order);
    assert forall i :: 0 <= i < |rows| ==> KeyOf(rows[i], order).Ok?;
    assert |d.value| == |qs|;
    forall i | 0 <= i < |qs|
      ensures d.value[i] == qs[i]
    {
      assert rows[i] == qs[i].1;
    }
    assert d.value == qs;
  }

  lemma UndecorateAppend(a: seq<(seq<string>, Row)>, b: seq<(seq<string>, Row)>)
    ensures Undecorate(a + b) == Undecorate(a) + Undecorate(b)
  {
  }

  lemma {:induction false} UndecoratePermuted(a: seq<(seq<string>, Row)>, b: seq<(seq<string>, Row)>)
    requires multiset(a) == multiset(b)
    ensures multiset(Undecorate(a)) == multiset(Undecorate(b))
    decreases |a|
  {
    if a == [] {
      assert |b| == |multiset(b)| == 0;
    } else {
      var x := a[0];
      assert x in multiset(b);
      var k :| 0 <= k < |b| && b[k] == x;
      var b' := b[..k] + b[k + 1..];
      assert b == b[..k] + [x] + b[k + 1..];
      assert a == [x] + a[1..];
      assert multiset(b) == multiset(b[..k]) + multiset{x} + multiset(b[k + 1..]);
      assert multiset(b') == multiset(b[..k]) + multiset(b[k + 1..]);
      assert multiset(a) == multiset{x} + multiset(a[1..]);
      assert multiset(a[1..]) == multiset(a) - multiset{x};
      assert multiset(b') == multiset(b) - multiset{x};
      UndecoratePermuted(a[1..], b');
      UndecorateAppend([x], a[1..]);
      UndecorateAppend(b[..k] + [x], b[k + 1..]);
      UndecorateAppend(b[..k], [x]);
      UndecorateAppend(b[..k], b[k + 1..]);
    }
  }

  /**
   * With a non-empty `order`, `get_data` returns a permutation of the
   * projected rows, sorted by the tuple of their order columns compared as
   * strings, and stable: rows with equal keys keep their concatenation order.
   */
  lemma QueryOrdered(docs: Docs, ids: seq<string>, select: seq<Column>, filter: Filter, order: seq<Column>)
    requires DocsValid(docs)
    requires order != [] && QueryResult(docs, ids, select, filter, order).Ok?
    ensures var rows := ProjectAll(Gather(docs, ids, filter).value, select);
            var out := QueryResult(docs, ids, select, filter, order).value;
      && multiset(out) == multiset(rows)
      && Decorate(rows, order).Ok? && Decorate(out, order).Ok?
      && Sorted(Decorate(out, order).value)
      && forall k :: WithKey(Decorate(out, order).value, k) == WithKey(Decorate(rows, order).value, k)
  {
    var rows := ProjectAll(Gather(docs, ids, filter).value, select);
    var ps := Decorate(rows, order).value;
    var sorted := StableSort(ps);
    var out := QueryResult(docs, ids, select, filter, order).value;
    assert out == Undecorate(sorted);
    assert KeysOfRows(ps, order);
    KeysOfRowsPermuted(ps, sorted, order);
    RedecorateKeyed(sorted, order);
    UndecoratePermuted(sorted, ps);
    RedecorateKeyed(ps, order);
    assert Undecorate(ps) == rows;
    StableSortSorted(ps);
    forall k
      ensures WithKey(sorted, k) == WithKey(ps, k)
    {
      StableSortStable(ps, k);
    }
  }

  /**
   * Every row `get_data` returns has exactly the selected columns, is the
   * projection of a gathered row, and, when the filter column is selected,
   * carries the filter value. With an empty `order` the rows come in the order
   * they were gathered.
   */
  lemma QueryRowsProjected(docs: Docs, ids: seq<string>, select: seq<Column>, filter: Filter, order: seq<Column>)
    requires DocsValid(docs)
    requires QueryResult(docs, ids, select, filter, order).Ok?
    ensures var rows := Gather(docs, ids, filter).value;
            var out := QueryResult(docs, ids, select, filter, order).value;
      && |out| == |rows|
      && (order == [] ==> forall i :: 0 <= i < |out| ==> out[i] == Project(rows[i], select))
      && forall i :: 0 <= i < |out| ==>
           && out[i].Keys == (set c | c in select)
           && (exists r :: r in rows && out[i] == Project(r, select))
           && (filter.Some? && filter.value.0 in select ==> out[i][filter.value.0] == filter.value.1)
  {
    var rows := Gather(docs, ids, filter).value;
    var projected := ProjectAll(rows, select);
    var out := QueryResult(docs, ids, select, filter, order).value;
    if order != [] {
      QueryOrdered(docs, ids, select, filter, order);
      assert |out| == |multiset(out)| == |multiset(projected)| == |projected|;
    }
    forall i | 0 <= i < |out|
      ensures && out[i].Keys == (set c | c in select)
              && (exists r :: r in rows && out[i] == Project(r, select))
              && (filter.Some? && filter.value.0 in select ==> out[i][filter.value.0] == filter.value.1)
    {
      assert out[i] in multiset(projected) by {
        if order != [] {
          assert out[i] in multiset(out);
        }
      }
      var m :| 0 <= m < |projected| && projected[m] == out[i];
      var r := rows[m];
      assert r in rows;
      if filter.Some? {
        GatherRows(docs, ids, filter, r);
        var n :| 0 <= n < |ids| && r in MatchingRows(filter, docs[ids[n]]);
        MatchingRowsFiltered(filter, docs[ids[n]]);
      }
    }
  }

  /**
   * How `get_data` fails: at the first candidate without a document, else
   * when rows are to be sorted by a column that was not selected, naming the
   * first such column of `order`; in no other case.
   */
  lemma QueryErrors(docs: Docs, ids: seq<string>, select: seq<Column>, filter: Filter, order: seq<Column>)
    requires DocsValid(docs)
    ensures var g := Gather(docs, ids, filter);
            var q := QueryResult(docs, ids, select, filter, order);
      && (g.Err? ==> q == Err(g.error))
      && (g.Ok? ==> (q.Err? <==> order != [] && g.value != [] && exists c :: c in order && c !in select))
      && (g.Ok? && q.Err? ==>
            exists k :: && 0 <= k < |order| && order[k] !in select && q.error == MissingKey(order[k])
                        && forall m :: 0 <= m < k ==> order[m] in select)
  {
    var g := Gather(docs, ids, filter);
    if g.Ok? && order != [] {
      var projected := ProjectAll(g.value, select);
      assert forall i :: 0 <= i < |projected| ==> (forall c :: c in projected[i] <==> c in select);
      if g.value != [] {
        assert Decorate(projected, order).Err? ==> Decorate(projected, order) == Err(KeyOf(projected[0], order).error);
      }
    }
  }
}
