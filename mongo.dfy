/** The record store the import task writes to (`db.reports` and
    `db.measurements`), seen as a journal of inserts in the order they were
    made. Each insert either appends one record under a fresh identifier or
    raises; which inserts raise is an input, a schedule consumed one entry
    per attempt (an exhausted schedule means no more failures). */
module Mongo {

  import opened Wrappers
  import opened Documents

  datatype Collection = Reports | Measurements

  /** One stored document, with the identifier its insert returned. */
  datatype Record = Record(collection: Collection, id: nat, doc: Mapping)

  datatype Db = Db(journal: seq<Record>, faults: seq<bool>)

  /** The store after an insert attempt, and the identifier it returned
      (`None` where the insert raised). */
  datatype Attempt = Attempt(db: Db, id: Option<nat>)

  /** Identifiers are handed out in insert order: the `k`-th record has
      identifier `k`. */
  predicate Numbered(journal: seq<Record>) {
    forall k :: 0 <= k < |journal| ==> journal[k].id == k
  }

  /** `collection.insert(doc)`. */
  function TryInsert(db: Db, c: Collection, doc: Mapping): Attempt {
    var fails := |db.faults| > 0 && db.faults[0];
    var faults := if |db.faults| > 0 then db.faults[1..] else [];
    if fails then Attempt(Db(db.journal, faults), None)
    else Attempt(Db(db.journal + [Record(c, |db.journal|, doc)], faults), Some(|db.journal|))
  }

  /** A successful insert stores exactly the given document at the end of
      the journal under an identifier no earlier record carries, keeping the
      numbering; a failed one stores nothing. Either way one entry of the
      fault schedule is used up. */
  lemma InsertAppendsFresh(db: Db, c: Collection, doc: Mapping)
    requires Numbered(db.journal)
    ensures var a := TryInsert(db, c, doc);
      && Numbered(a.db.journal)
      && (a.id.Some? ==> a.db.journal == db.journal + [Record(c, a.id.value, doc)]
                         && forall k :: 0 <= k < |db.journal| ==> db.journal[k].id != a.id.value)
      && (a.id.None? ==> a.db.journal == db.journal)
      && (a.id.None? <==> |db.faults| > 0 && db.faults[0])
      && a.db.faults == (if |db.faults| > 0 then db.faults[1..] else [])
  {
  }

  class Store {
    var journal: seq<Record>
    var faults: seq<bool>

    function State(): Db
      reads this
    {
      Db(journal, faults)
    }

    constructor (db: Db)
      ensures State() == db
    {
      journal, faults := db.journal, db.faults;
    }

    /** `insert`: append the document and return its identifier, or raise. */
    method Insert(c: Collection, doc: Mapping) returns (id: Option<nat>)
      modifies this
      ensures Attempt(State(), id) == TryInsert(old(State()), c, doc)
    {
      var fails := |faults| > 0 && faults[0];
      if |faults| > 0 {
        faults := faults[1..];
      }
      if fails {
        id := None;
      } else {
        id := Some(|journal|);
        journal := journal + [Record(c, |journal|, doc)];
      }
    }
  }

}
