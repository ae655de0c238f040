/**
 * The record store: one document per entity id, holding every event of that
 * entity grouped by date and then by title (`add_data` and the layout of the
 * `<stb>.json` files).
 */
module RecordStore {
  import opened Types
  import opened OrderedDict

  /**
   * An entity document: its `'stb'` key, then one entry per date, each
   * mapping titles to a slot. Dates and titles keep their insertion order.
   */
  datatype Doc = Doc(stb: string, days: Dict<Dict<Slot>>)

  /** The documents of the store, keyed by entity id (one file each). */
  type Docs = map<string, Doc>

  ghost predicate DocValid(doc: Doc)
  {
    && Valid(doc.days)
    && forall d :: d in doc.days.entries ==> Valid(doc.days.entries[d])
  }

  predicate HasSlot(doc: Doc, date: string, title: string)
  {
    date in doc.days.entries && title in doc.days.entries[date].entries
  }

  function SlotAt(doc: Doc, date: string, title: string): Slot
    requires HasSlot(doc, date, title)
  {
    doc.days.entries[date].entries[title]
  }

  /** The slot an event writes. */
  function SlotOf(e: Record): Slot
  {
    Slot(e.rev, e.time, e.provider)
  }

  /** A document as first created for an entity: only its `'stb'` key. */
  function NewDoc(id: string): (r: Doc)
    ensures DocValid(r) && r.stb == id
    ensures forall d, t :: !HasSlot(r, d, t)
  {
    Doc(id, Empty())
  }

  /**
   * `existing_data[date][title] = {...}`: creates the date entry when it is
   * missing and overwrites the (date, title) slot; every other slot is kept.
   */
  function WriteSlot(doc: Doc, e: Record): (r: Doc)
    requires DocValid(doc)
    ensures DocValid(r) && r.stb == doc.stb
    ensures HasSlot(r, e.date, e.title) && SlotAt(r, e.date, e.title) == SlotOf(e)
    ensures forall d, t :: d != e.date || t != e.title ==>
              (HasSlot(r, d, t) <==> HasSlot(doc, d, t)) &&
              (HasSlot(doc, d, t) ==> SlotAt(r, d, t) == SlotAt(doc, d, t))
  {
    var day := if e.date in doc.days.entries then doc.days.entries[e.date] else Empty();
    Doc(doc.stb, Put(doc.days, e.date, Put(day, e.title, SlotOf(e))))
  }

  /**
   * `add_data`'s write to the record store: loads the entity's document (a new
   * one when it has none), writes the event's slot and stores it back.
   */
  function Ingest(docs: Docs, e: Record): (r: Docs)
    requires e.stb in docs ==> DocValid(docs[e.stb])
    ensures r.Keys == docs.Keys + {e.stb}
    ensures DocValid(r[e.stb])
    ensures HasSlot(r[e.stb], e.date, e.title) && SlotAt(r[e.stb], e.date, e.title) == SlotOf(e)
    ensures e.stb in docs ==> r[e.stb].stb == docs[e.stb].stb
    ensures e.stb !in docs ==> r[e.stb].stb == e.stb
    ensures forall d, t :: d != e.date || t != e.title ==>
              (HasSlot(r[e.stb], d, t) <==> e.stb in docs && HasSlot(docs[e.stb], d, t)) &&
              (e.stb in docs && HasSlot(docs[e.stb], d, t) ==>
                 SlotAt(r[e.stb], d, t) == SlotAt(docs[e.stb], d, t))
    ensures forall id :: id in docs && id != e.stb ==> r[id] == docs[id]
  {
    var existing := if e.stb in docs then docs[e.stb] else NewDoc(e.stb);
    docs[e.stb := WriteSlot(existing, e)]
  }

  /** Writing the same event a second time leaves the documents as the first write left them. */
  lemma IngestIdempotent(docs: Docs, e: Record)
    requires e.stb in docs ==> DocValid(docs[e.stb])
    ensures Ingest(Ingest(docs, e), e) == Ingest(docs, e)
  {
    var once := Ingest(docs, e);
    var doc := once[e.stb];
    var day := doc.days.entries[e.date];
    PutPresent(day, e.title);
    PutPresent(doc.days, e.date);
    assert WriteSlot(doc, e) == doc;
    assert once[e.stb := doc] == once;
  }

  lemma WriteSlotOverwrites(doc: Doc, e1: Record, e2: Record)
    requires DocValid(doc)
    requires e1.date == e2.date && e1.title == e2.title
    ensures WriteSlot(WriteSlot(doc, e1), e2) == WriteSlot(doc, e2)
  {
    var day0 := if e1.date in doc.days.entries then doc.days.entries[e1.date] else Empty();
    var day1 := Put(day0, e1.title, SlotOf(e1));
    assert WriteSlot(doc, e1).days.entries[e1.date] == day1;
    PutOverwrites(day0, e1.title, SlotOf(e1), SlotOf(e2));
    PutOverwrites(doc.days, e1.date, day1, Put(day0, e2.title, SlotOf(e2)));
  }

  /**
   * A later event for the same (entity, date, title) replaces the earlier one
   * (last write wins), whatever the two events carried.
   */
  lemma IngestOverwrites(docs: Docs, e1: Record, e2: Record)
    requires e1.stb in docs ==> DocValid(docs[e1.stb])
    requires e1.stb == e2.stb && e1.date == e2.date && e1.title == e2.title
    ensures Ingest(Ingest(docs, e1), e2) == Ingest(docs, e2)
  {
    var doc0 := if e1.stb in docs then docs[e1.stb] else NewDoc(e1.stb);
    var doc1 := WriteSlot(doc0, e1);
    var docs1 := docs[e1.stb := doc1];
    assert Ingest(docs, e1) == docs1;
    assert Ingest(docs1, e2) == docs1[e1.stb := WriteSlot(doc1, e2)];
    WriteSlotOverwrites(doc0, e1, e2);
    assert docs1[e1.stb := WriteSlot(doc0, e2)] == docs[e1.stb := WriteSlot(doc0, e2)];
  }
}
