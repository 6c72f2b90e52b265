/**
 * The stored file records and the hosted table they live in. The table is
 * an external service: here it is a map from id to record, and every call
 * takes the outcome the service would produce (success, or an error with a
 * code and a message) as a parameter.
 */
module Store {

  import opened Wrappers
  import opened Numbers

  datatype Status = Processing | Completed | Failed

  /** One trade read from an uploaded document; string fields are `undefined` when absent. */
  datatype Trade = Trade(
    date: Option<string>,
    symbol: Option<string>,
    kind: Option<string>,
    quantity: Num,
    price: Num,
    counterparty: Option<string>)

  /** A row of the `files` table. */
  datatype FileRecord = FileRecord(
    filename: string,
    status: Status,
    fileType: string,
    fileSize: string,
    fileContent: string,
    trades: nat,
    sampleTrades: seq<Trade>,
    uploadDate: string)

  type Id = nat

  datatype StoreError = StoreError(code: string, message: string)

  /**
   * What the service does with an insert: it stores the row and returns it,
   * stores the row but returns no row (the row is not readable back), or
   * rejects the write.
   */
  datatype InsertOutcome = Inserted | InsertedUnreadable | InsertRejected(err: StoreError)

  datatype WriteOutcome = Written | WriteRejected(err: StoreError)

  /** The reply to `insert(...).select()`: the ids of the rows returned, or the error. */
  datatype InsertReply = Rows(ids: seq<Id>) | InsertFailed(err: StoreError)

  /** A call issued to the service, whatever its outcome. */
  datatype Call = InsertCall(record: FileRecord) | UpdateStatusCall(id: Id, status: Status)

  class RecordStore {
    var records: map<Id, FileRecord>
    var nextId: Id
    /** Every call issued so far, in order. */
    ghost var calls: seq<Call>

    /** Ids are positive (so a returned id is truthy) and fresh ones are never in use. */
    ghost predicate Valid()
      reads this
    {
      0 < nextId && forall id | id in records :: 0 < id < nextId
    }

    constructor ()
      ensures Valid() && records == map[] && calls == []
    {
      records := map[];
      nextId := 1;
      calls := [];
    }

    /** `from('files').insert([rec]).select()`. */
    method Insert(rec: FileRecord, outcome: InsertOutcome) returns (reply: InsertReply)
      requires Valid()
      modifies this
      ensures Valid()
      ensures calls == old(calls) + [InsertCall(rec)]
      ensures old(nextId) > 0 && old(nextId) !in old(records)
      ensures outcome.InsertRejected? ==>
        reply == InsertFailed(outcome.err) && records == old(records)
      ensures outcome.Inserted? ==>
        reply == Rows([old(nextId)]) && records == old(records)[old(nextId) := rec]
      ensures outcome.InsertedUnreadable? ==>
        reply == Rows([]) && records == old(records)[old(nextId) := rec]
    {
      calls := calls + [InsertCall(rec)];
      if outcome.InsertRejected? {
        return InsertFailed(outcome.err);
      }
      var id := nextId;
      records := records[id := rec];
      nextId := nextId + 1;
      reply := if outcome.Inserted? then Rows([id]) else Rows([]);
    }

    /**
     * `from('files').update({ status }).eq('id', id)`: a write that matches
     * no row changes nothing and is not an error.
     */
    method UpdateStatus(id: Id, status: Status, outcome: WriteOutcome) returns (err: Option<StoreError>)
      requires Valid()
      modifies this
      ensures Valid() && nextId == old(nextId)
      ensures calls == old(calls) + [UpdateStatusCall(id, status)]
      ensures err == if outcome.WriteRejected? then Some(outcome.err) else None
      ensures records == if outcome.Written? && id in old(records)
                         then old(records)[id := old(records)[id].(status := status)]
                         else old(records)
    {
      calls := calls + [UpdateStatusCall(id, status)];
      if outcome.WriteRejected? {
        return Some(outcome.err);
      }
      if id in records {
        records := records[id := records[id].(status := status)];
      }
      err := None;
    }
  }
}
