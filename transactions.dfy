/** The per-record transaction handling of the table resource: each request
    verb applied to the document bucket, the pre-images kept for rollback,
    and the commit and rollback that end a batch. */
module Transactions {
  import opened PhpStrings
  import opened Values
  import opened RecordShaping

  // ---------------------------------------------------------------------------
  // The document bucket

  /** The bucket a transaction writes to: document id to stored document. */
  type Bucket = map<string, Record>

  /** insert: fails when a document with the id is already stored. */
  function Insert(b: Bucket, id: string, doc: Record): Result<Bucket> {
    if id in b then Err(DocumentExists(id)) else Ok(b[id := doc])
  }

  /** replace: fails when no document with the id is stored. */
  function Replace(b: Bucket, id: string, doc: Record): Result<Bucket> {
    if id !in b then Err(DocumentNotFound(id)) else Ok(b[id := doc])
  }

  /** upsert: always stores the document. */
  function Upsert(b: Bucket, id: string, doc: Record): Bucket {
    b[id := doc]
  }

  /** remove: fails when no document with the id is stored. */
  function Remove(b: Bucket, id: string): Result<Bucket> {
    if id !in b then Err(DocumentNotFound(id)) else Ok(b - {id})
  }

  /** get: the stored document, as (array)$result->value; fails when there is none. */
  function Fetch(b: Bucket, id: string): Result<Record> {
    if id !in b then Err(DocumentNotFound(id)) else Ok(b[id])
  }

  /** Inserting a new document and removing it again leaves the bucket as it was. */
  lemma InsertThenRemove(b: Bucket, id: string, doc: Record)
    requires id !in b
    ensures Insert(b, id, doc).Ok?
    ensures Remove(Insert(b, id, doc).value, id) == Ok(b)
  {
    assert b[id := doc] - {id} == b;
  }

  /** Replacing a document and then putting back what get returned before
      leaves the bucket as it was. */
  lemma ReplaceThenRestore(b: Bucket, id: string, doc: Record)
    requires Fetch(b, id).Ok?
    ensures Replace(b, id, doc).Ok?
    ensures Replace(Replace(b, id, doc).value, id, Fetch(b, id).value) == Ok(b)
  {
    assert b[id := doc][id := b[id]] == b;
  }

  /** Removing a document and inserting what get returned before leaves the
      bucket as it was. */
  lemma RemoveThenRestore(b: Bucket, id: string)
    requires Fetch(b, id).Ok?
    ensures Remove(b, id).Ok?
    ensures Insert(Remove(b, id).value, id, Fetch(b, id).value) == Ok(b)
  {
    assert (b - {id})[id := b[id]] == b;
  }

  // ---------------------------------------------------------------------------
  // addToTransaction

  /** The request verbs getAction can report; any other verb does nothing. */
  datatype Verb = POST | PUT | PATCH | DELETE | GET | OtherVerb

  /** The request options addToTransaction reads: the fields to return, the
      require_more flag, and the updates (the empty record when absent). */
  datatype Extras = Extras(fields: Option<string>, requireMore: bool, updates: Record)

  /** What addToTransaction returns: a record shaped by cleanRecord, the
      result of a write whose driver result object is not modelled, or the
      hand-over of a POST with rollback to the parent resource. */
  datatype Outcome = Shaped(record: Record) | Written(id: string) | Delegated(record: Record, id: string)

  /** The effect of one call: its result, the bucket after it, and the
      pre-images it appended to rollbackRecords. */
  datatype Step = Step(out: Result<Outcome>, bucket: Bucket, saved: seq<Record>)

  const NoFieldsMessage: string := "No valid fields were found in record."

  /** The one-field record [ID_FIELD => id]. */
  function IdRecord(id: string): Record {
    map[IdField := Str(id)]
  }

  /** array_merge([ID_FIELD => id], $doc): the document, with the id in front
      unless the document holds its own `_id`. */
  function WithIdFirst(id: string, doc: Record): Record {
    IdRecord(id) + doc
  }

  /** POST: reject an empty record, store it without `_id`, return the id
      (and the record with require_more), or hand a rollback request to the
      parent once the document is already stored. */
  function PostStep(b: Bucket, record: Record, id: string, extras: Extras, rollback: bool): Step {
    if record == map[] then Step(Err(BadRequest(NoFieldsMessage)), b, [])
    else
      var doc := record - {IdField};
      match Insert(b, id, doc)
      case Err(e) => Step(Err(e), b, [])
      case Ok(b1) =>
        var result := if extras.requireMore then doc + IdRecord(id) else IdRecord(id);
        if rollback then Step(Ok(Delegated(doc, id)), b1, [])
        else Step(Ok(Shaped(CleanRecordSpec(result, extras.fields, Some(IdField)))), b1, [])
  }

  /** The record PUT writes: the updates with the id set when there are
      updates, the request record otherwise. */
  function PutRecord(record: Record, id: string, extras: Extras): Record {
    if extras.updates != map[] then extras.updates[IdField := Str(id)] else record
  }

  /** The write that ends PUT: upsert where the parent allows it, replace otherwise. */
  function PutWrite(b: Bucket, rec: Record, id: string, upsertAllowed: bool, saved: seq<Record>): Step {
    if upsertAllowed then Step(Ok(Written(id)), Upsert(b, id, rec), saved)
    else
      match Replace(b, id, rec)
      case Err(e) => Step(Err(e), b, saved)
      case Ok(b1) => Step(Ok(Written(id)), b1, saved)
  }

  /** PUT: reject an empty record; with rollback, save the stored document
      with the id in front before writing. */
  function PutStep(b: Bucket, record: Record, id: string, extras: Extras, rollback: bool, upsertAllowed: bool): Step {
    var rec := PutRecord(record, id, extras);
    if rec == map[] then Step(Err(BadRequest(NoFieldsMessage)), b, [])
    else if rollback then
      match Fetch(b, id)
      case Err(e) => Step(Err(e), b, [])
      case Ok(doc) => PutWrite(b, rec, id, upsertAllowed, [WithIdFirst(id, doc)])
    else PutWrite(b, rec, id, upsertAllowed, [])
  }

  /** The fields PATCH supplies: the updates when there are any, the request
      record otherwise, with the id set. */
  function PatchFields(record: Record, id: string, extras: Extras): Record {
    (if extras.updates != map[] then extras.updates else record)[IdField := Str(id)]
  }

  /** PATCH: merge the supplied fields over the stored document and write it
      back; with rollback, save the stored document as it was (without an
      id added). */
  function PatchStep(b: Bucket, record: Record, id: string, extras: Extras, rollback: bool): Step {
    var supplied := PatchFields(record, id, extras);
    match Fetch(b, id)
    case Err(e) => Step(Err(e), b, [])
    case Ok(stored) =>
      var merged := stored + supplied;
      if merged == map[] then Step(Err(BadRequest(NoFieldsMessage)), b, [])
      else
        match Replace(b, id, merged)
        case Err(e) => Step(Err(e), b, [])
        case Ok(b1) => Step(Ok(Written(id)), b1, if rollback then [stored] else [])
  }

  /** DELETE: read the document with the id in front, save it with rollback,
      remove it, and return it shaped. */
  function DeleteStep(b: Bucket, id: string, extras: Extras, rollback: bool): Step {
    match Fetch(b, id)
    case Err(e) => Step(Err(e), b, [])
    case Ok(doc) =>
      var preImage := WithIdFirst(id, doc);
      var saved := if rollback then [preImage] else [];
      match Remove(b, id)
      case Err(e) => Step(Err(e), b, saved)
      case Ok(b1) => Step(Ok(Shaped(CleanRecordSpec(preImage, extras.fields, Some(IdField)))), b1, saved)
  }

  /** GET: read the document with the id in front and return it shaped. */
  function GetStep(b: Bucket, id: string, extras: Extras): Step {
    match Fetch(b, id)
    case Err(e) => Step(Err(e), b, [])
    case Ok(doc) => Step(Ok(Shaped(CleanRecordSpec(WithIdFirst(id, doc), extras.fields, Some(IdField)))), b, [])
  }

  /** addToTransaction($record, $id, $extras, $rollback) as a value. */
  function Dispatch(action: Verb, upsertAllowed: bool, b: Bucket, record: Record, id: string,
                    extras: Extras, rollback: bool): Step
  {
    match action
    case POST => PostStep(b, record, id, extras, rollback)
    case PUT => PutStep(b, record, id, extras, rollback, upsertAllowed)
    case PATCH => PatchStep(b, record, id, extras, rollback)
    case DELETE => DeleteStep(b, id, extras, rollback)
    case GET => GetStep(b, id, extras)
    case OtherVerb => Step(Ok(Shaped(map[])), b, [])
  }

  // ---------------------------------------------------------------------------
  // rollbackTransaction

  /** (string)$v for an integer. */
  function IntText(i: int): string {
    if i < 0 then "-" + NatToString(-i) else NatToString(i)
  }

  /** The document id a rollback record names: none when its `_id` is
      empty(), else the id as a string. */
  function RollbackKey(v: Value): Option<string> {
    if IsEmptyValue(v) then None
    else
      match v
      case Str(s) => Some(s)
      case Int(i) => Some(IntText(i))
      case Bool(_) => Some("1")
      case _ => None
  }

  /** The inverse operation rollback replays for one saved record. */
  function Undo(action: Verb, b: Bucket, rr: Record): Result<Bucket> {
    match RollbackKey(Lookup(rr, IdField))
    case None => Ok(b)
    case Some(key) =>
      match action
      case POST => Remove(b, key)
      case PUT => Replace(b, key, rr - {IdField})
      case PATCH => Replace(b, key, rr - {IdField})
      case DELETE => Insert(b, key, rr - {IdField})
      case _ => Ok(b)
  }

  /** The bucket after replaying saved records in order, and the error that
      stopped the replay, if any. */
  datatype Replayed = Replayed(bucket: Bucket, failure: Option<Error>)

  function Replay(action: Verb, b: Bucket, rrs: seq<Record>): Replayed {
    if rrs == [] then Replayed(b, None)
    else
      var before := Replay(action, b, rrs[..|rrs| - 1]);
      if before.failure.Some? then before
      else
        match Undo(action, before.bucket, rrs[|rrs| - 1])
        case Err(e) => Replayed(before.bucket, Some(e))
        case Ok(b1) => Replayed(b1, None)
  }

  /** One more record replayed after a prefix that went through. */
  lemma ReplayStep(action: Verb, b: Bucket, rrs: seq<Record>, k: nat)
    requires k < |rrs|
    ensures var before := Replay(action, b, rrs[..k]);
            Replay(action, b, rrs[..k + 1]) ==
              if before.failure.Some? then before
              else match Undo(action, before.bucket, rrs[k])
                   case Err(e) => Replayed(before.bucket, Some(e))
                   case Ok(b1) => Replayed(b1, None)
  {
    assert rrs[..k + 1][..k] == rrs[..k];
  }

  // ---------------------------------------------------------------------------
  // The transaction object

  /** The transaction state of the table resource: the bucket it writes to,
      the pre-images kept for rollback and the parent's batch buffers. */
  class TableTransaction {
    const action: Verb
    const upsertAllowed: bool
    var bucket: Bucket
    var rollbackRecords: seq<Record>
    var batchIds: seq<string>
    var batchRecords: seq<Record>

    constructor (action: Verb, upsertAllowed: bool, bucket: Bucket)
      ensures this.action == action && this.upsertAllowed == upsertAllowed && this.bucket == bucket
      ensures rollbackRecords == [] && batchIds == [] && batchRecords == []
    {
      this.action := action;
      this.upsertAllowed := upsertAllowed;
      this.bucket := bucket;
      rollbackRecords := [];
      batchIds := [];
      batchRecords := [];
    }

    /** addToRollback($record) */
    method AddToRollback(rr: Record)
      modifies this
      ensures rollbackRecords == old(rollbackRecords) + [rr]
      ensures bucket == old(bucket) && batchIds == old(batchIds) && batchRecords == old(batchRecords)
    {
      rollbackRecords := rollbackRecords + [rr];
    }

    /** addToTransaction($record, $id, $extras, $rollback): the switch on
        the request verb; the branches are the methods below. */
    method AddToTransaction(record: Record, id: string, extras: Extras, rollback: bool) returns (r: Result<Outcome>)
      modifies this
      ensures var s := Dispatch(action, upsertAllowed, old(bucket), record, id, extras, rollback);
              r == s.out && bucket == s.bucket && rollbackRecords == old(rollbackRecords) + s.saved
      ensures batchIds == old(batchIds) && batchRecords == old(batchRecords)
    {
      match action {
        case POST => r := AddPost(record, id, extras, rollback);
        case PUT => r := AddPut(record, id, extras, rollback);
        case PATCH => r := AddPatch(record, id, extras, rollback);
        case DELETE => r := AddDelete(id, extras, rollback);
        case GET => r := AddGet(id, extras);
        case OtherVerb => r := Ok(Shaped(map[]));
      }
    }

    /** The POST branch of addToTransaction. */
    method AddPost(record: Record, id: string, extras: Extras, rollback: bool) returns (r: Result<Outcome>)
      modifies this
      ensures var s := PostStep(old(bucket), record, id, extras, rollback);
              r == s.out && bucket == s.bucket && rollbackRecords == old(rollbackRecords) + s.saved
      ensures batchIds == old(batchIds) && batchRecords == old(batchRecords)
    {
      if record == map[] {
        return Err(BadRequest(NoFieldsMessage));
      }
      var doc := record - {IdField};
      var inserted := Insert(bucket, id, doc);
      if inserted.Err? {
        return Err(inserted.error);
      }
      bucket := inserted.value;
      var result := IdRecord(id);
      if extras.requireMore {
        result := doc + result;
      }
      if rollback {
        return Ok(Delegated(doc, id));
      }
      var out := CleanRecord(result, extras.fields, Some(IdField));
      r := Ok(Shaped(out));
    }

    /** The PUT branch of addToTransaction. */
    method AddPut(record: Record, id: string, extras: Extras, rollback: bool) returns (r: Result<Outcome>)
      modifies this
      ensures var s := PutStep(old(bucket), record, id, extras, rollback, upsertAllowed);
              r == s.out && bucket == s.bucket && rollbackRecords == old(rollbackRecords) + s.saved
      ensures batchIds == old(batchIds) && batchRecords == old(batchRecords)
    {
      var rec := record;
      if extras.updates != map[] {
        rec := extras.updates;
        rec := rec[IdField := Str(id)];
      }
      if rec == map[] {
        return Err(BadRequest(NoFieldsMessage));
      }
      if rollback {
        var fetched := Fetch(bucket, id);
        if fetched.Err? {
          return Err(fetched.error);
        }
        var preImage := WithIdFirst(id, fetched.value);
        AddToRollback(preImage);
      }
      if upsertAllowed {
        bucket := Upsert(bucket, id, rec);
      } else {
        var replaced := Replace(bucket, id, rec);
        if replaced.Err? {
          return Err(replaced.error);
        }
        bucket := replaced.value;
      }
      r := Ok(Written(id));
    }

    /** The PATCH branch of addToTransaction. */
    method AddPatch(record: Record, id: string, extras: Extras, rollback: bool) returns (r: Result<Outcome>)
      modifies this
      ensures var s := PatchStep(old(bucket), record, id, extras, rollback);
              r == s.out && bucket == s.bucket && rollbackRecords == old(rollbackRecords) + s.saved
      ensures batchIds == old(batchIds) && batchRecords == old(batchRecords)
    {
      var rec := record;
      if extras.updates != map[] {
        rec := extras.updates;
      }
      rec := rec[IdField := Str(id)];
      var fetched := Fetch(bucket, id);
      if fetched.Err? {
        return Err(fetched.error);
      }
      var stored := fetched.value;
      // merge in the changes
      rec := stored + rec;
      if rec == map[] {
        return Err(BadRequest(NoFieldsMessage));
      }
      // write back the changes: the document was just read, so replace finds it
      var replaced := Replace(bucket, id, rec);
      bucket := replaced.value;
      if rollback {
        AddToRollback(stored);
      }
      r := Ok(Written(id));
    }

    /** The DELETE branch of addToTransaction. */
    method AddDelete(id: string, extras: Extras, rollback: bool) returns (r: Result<Outcome>)
      modifies this
      ensures var s := DeleteStep(old(bucket), id, extras, rollback);
              r == s.out && bucket == s.bucket && rollbackRecords == old(rollbackRecords) + s.saved
      ensures batchIds == old(batchIds) && batchRecords == old(batchRecords)
    {
      var fetched := Fetch(bucket, id);
      if fetched.Err? {
        return Err(fetched.error);
      }
      var preImage := WithIdFirst(id, fetched.value);
      if rollback {
        AddToRollback(preImage);
      }
      // the document was just read, so remove finds it
      var removed := Remove(bucket, id);
      bucket := removed.value;
      var out := CleanRecord(preImage, extras.fields, Some(IdField));
      r := Ok(Shaped(out));
    }

    /** The GET branch of addToTransaction. */
    method AddGet(id: string, extras: Extras) returns (r: Result<Outcome>)
      modifies this
      ensures var s := GetStep(old(bucket), id, extras);
              r == s.out && bucket == s.bucket && rollbackRecords == old(rollbackRecords) + s.saved
      ensures batchIds == old(batchIds) && batchRecords == old(batchRecords)
    {
      var fetched := Fetch(bucket, id);
      if fetched.Err? {
        return Err(fetched.error);
      }
      var out := CleanRecord(WithIdFirst(id, fetched.value), extras.fields, Some(IdField));
      r := Ok(Shaped(out));
    }

    /** commitTransaction(): nothing to do for an empty batch; otherwise the
        batch buffers are emptied and an empty result returned. */
    method CommitTransaction() returns (r: Option<Record>)
      modifies this
      ensures old(batchRecords) == [] && old(batchIds) == [] ==> r == None
      ensures !(old(batchRecords) == [] && old(batchIds) == []) ==> r == Some(map[])
      ensures batchIds == [] && batchRecords == []
      ensures bucket == old(bucket) && rollbackRecords == old(rollbackRecords)
    {
      if batchRecords == [] && batchIds == [] {
        return None;
      }
      batchIds := [];
      batchRecords := [];
      r := Some(map[]);
    }

    /** rollbackTransaction(): replay the inverse of each saved record in
        order; an error from the bucket ends the rollback with the records
        kept, otherwise they are dropped and the result is true. */
    method RollbackTransaction() returns (r: Result<bool>)
      modifies this
      ensures var p := Replay(action, old(bucket), old(rollbackRecords));
              bucket == p.bucket &&
              (p.failure.None? ==> r == Ok(true) && rollbackRecords == []) &&
              (p.failure.Some? ==> r == Err(p.failure.value) && rollbackRecords == old(rollbackRecords))
      ensures batchIds == old(batchIds) && batchRecords == old(batchRecords)
    {
      if rollbackRecords != [] {
        if action == POST || action == PUT || action == PATCH || action == DELETE {
          var failure := ReplayRollback();
          if failure.Some? {
            return Err(failure.value);
          }
        } else {
          // nothing to do here, rollback handled on bulk calls
          NothingToUndo(action, bucket, rollbackRecords);
        }
        rollbackRecords := [];
      }
      r := Ok(true);
    }

    /** The loops of rollbackTransaction: for each saved record with a
        non-empty `_id`, the inverse of the request verb, stopping at the
        first error from the bucket. */
    method ReplayRollback() returns (failure: Option<Error>)
      requires action == POST || action == PUT || action == PATCH || action == DELETE
      modifies this
      ensures Replayed(bucket, failure) == Replay(action, old(bucket), rollbackRecords)
      ensures rollbackRecords == old(rollbackRecords)
      ensures batchIds == old(batchIds) && batchRecords == old(batchRecords)
    {
      var k := 0;
      while k < |rollbackRecords|
        invariant 0 <= k <= |rollbackRecords|
        invariant rollbackRecords == old(rollbackRecords)
        invariant batchIds == old(batchIds) && batchRecords == old(batchRecords)
        invariant Replay(action, old(bucket), rollbackRecords[..k]) == Replayed(bucket, None)
      {
        var rr := rollbackRecords[k];
        ReplayStep(action, old(bucket), rollbackRecords, k);
        var key := RollbackKey(Lookup(rr, IdField));
        if key.Some? {
          var undone: Result<Bucket>;
          if action == POST {
            undone := Remove(bucket, key.value);
          } else if action == DELETE {
            undone := Insert(bucket, key.value, rr - {IdField});
          } else {
            undone := Replace(bucket, key.value, rr - {IdField});
          }
          assert undone == Undo(action, bucket, rr);
          if undone.Err? {
            ReplayFailureSticks(action, old(bucket), rollbackRecords, k + 1);
            return Some(undone.error);
          }
          bucket := undone.value;
        }
        k := k + 1;
      }
      assert rollbackRecords[..k] == rollbackRecords;
      failure := None;
    }
  }

  /** Once a record fails to replay, the rest are not replayed. */
  lemma {:induction false} ReplayFailureSticks(action: Verb, b: Bucket, rrs: seq<Record>, k: nat)
    requires k <= |rrs| && Replay(action, b, rrs[..k]).failure.Some?
    ensures Replay(action, b, rrs) == Replay(action, b, rrs[..k])
    decreases |rrs| - k
  {
    if k < |rrs| {
      ReplayStep(action, b, rrs, k);
      ReplayFailureSticks(action, b, rrs, k + 1);
    } else {
      assert rrs[..k] == rrs;
    }
  }

  /** Verbs other than POST, PUT, PATCH and DELETE replay nothing. */
  lemma {:induction false} NothingToUndo(action: Verb, b: Bucket, rrs: seq<Record>)
    requires action == GET || action == OtherVerb
    ensures Replay(action, b, rrs) == Replayed(b, None)
  {
    if rrs != [] {
      NothingToUndo(action, b, rrs[..|rrs| - 1]);
    }
  }

  /** Replaying a single saved record. */
  lemma ReplayOne(action: Verb, b: Bucket, rr: Record)
    ensures Replay(action, b, [rr]) ==
            match Undo(action, b, rr)
            case Err(e) => Replayed(b, Some(e))
            case Ok(b1) => Replayed(b1, None)
  {
    assert [rr][..0] == [];
  }

  // ---------------------------------------------------------------------------
  // Properties of addToTransaction

  /** POST, and PUT without updates, refuse a record with no fields before
      touching the bucket. */
  lemma EmptyRecordRejected(action: Verb, upsertAllowed: bool, b: Bucket, id: string, extras: Extras, rollback: bool)
    requires action == POST || (action == PUT && extras.updates == map[])
    ensures Dispatch(action, upsertAllowed, b, map[], id, extras, rollback)
            == Step(Err(BadRequest(NoFieldsMessage)), b, [])
  {
  }

  /** POST stores the record without its `_id` under the new id and returns
      the id whatever fields were asked for. Asked for every field it returns
      the id, and with require_more also the stored fields; asked for none it
      returns the id alone. */
  lemma PostStoresWithoutId(b: Bucket, record: Record, id: string, extras: Extras)
    requires record != map[] && id !in b
    ensures var s := PostStep(b, record, id, extras, false);
            s.bucket == b[id := record - {IdField}] && IdField !in s.bucket[id] && s.saved == [] &&
            s.out.Ok? && s.out.value.Shaped? &&
            var out := s.out.value.record;
            IdField in out &&
            (extras.fields == Some("*") ==>
               out[IdField] == Str(id) &&
               (extras.requireMore ==> forall k :: k in record && k != IdField ==> k in out && out[k] == record[k]) &&
               (!extras.requireMore ==> out.Keys == {IdField})) &&
            (extras.fields == None ==> out == IdRecord(id))
  {
    var doc := record - {IdField};
    var result := if extras.requireMore then doc + IdRecord(id) else IdRecord(id);
    if extras.fields == Some("*") {
      CleanRecordStar(result, Some(IdField));
    } else {
      SingleFieldList(IdField);
      PlainNameIsNotExpression(IdField);
      ProjectionSpec(result, FieldList(extras.fields), [IdField], IsExpression);
      if extras.fields == None {
        PostReturnsIdAlone(result, id);
      }
    }
  }

  /** Asked for no fields, cleanRecord keeps the id field alone. */
  lemma PostReturnsIdAlone(result: Record, id: string)
    requires IdField in result && result[IdField] == Str(id)
    ensures CleanRecordSpec(result, None, Some(IdField)) == IdRecord(id)
  {
    SingleFieldList(IdField);
    PlainNameIsNotExpression(IdField);
    assert WithIds([], [IdField]) == [IdField];
    assert Glean(result, [IdField], IsExpression) == map[][OutKey(IdField, IsExpression) := Lookup(result, RecordKey([IdField], 0, IsExpression))];
  }

  /** POST of an id that is already stored fails and changes nothing. */
  lemma PostExistingRejected(b: Bucket, record: Record, id: string, extras: Extras, rollback: bool)
    requires record != map[] && id in b
    ensures PostStep(b, record, id, extras, rollback) == Step(Err(DocumentExists(id)), b, [])
  {
  }

  /** POST with rollback hands the record to the parent only after the
      document is already stored. */
  lemma PostRollbackAlreadyStored(b: Bucket, record: Record, id: string, extras: Extras)
    requires record != map[] && id !in b
    ensures var s := PostStep(b, record, id, extras, true);
            s.out == Ok(Delegated(record - {IdField}, id)) && id in s.bucket && s.bucket[id] == record - {IdField}
  {
  }

  /** PUT writes the record (the updates with the id set, when there are
      updates) whenever upsert is allowed or the document exists, and fails
      with the bucket unchanged when it must replace a missing document. */
  lemma PutWrites(b: Bucket, record: Record, id: string, extras: Extras, rollback: bool, upsertAllowed: bool)
    requires PutRecord(record, id, extras) != map[]
    ensures var s := PutStep(b, record, id, extras, rollback, upsertAllowed);
            ((upsertAllowed && !rollback) || id in b ==>
               s.out == Ok(Written(id)) && s.bucket == b[id := PutRecord(record, id, extras)]) &&
            ((!upsertAllowed || rollback) && id !in b ==>
               s.out == Err(DocumentNotFound(id)) && s.bucket == b) &&
            (extras.updates != map[] ==> s.bucket == b || s.bucket[id][IdField] == Str(id))
  {
  }

  /** PATCH merges the supplied fields over the stored document: supplied
      fields win, the other stored fields stay, `_id` is set to the id, and
      the request never fails once the document exists. */
  lemma PatchMerges(b: Bucket, record: Record, id: string, extras: Extras, rollback: bool)
    requires id in b
    ensures var s := PatchStep(b, record, id, extras, rollback);
            var supplied := if extras.updates != map[] then extras.updates else record;
            var doc := s.bucket[id];
            s.out == Ok(Written(id)) && id in s.bucket &&
            (forall other :: other != id ==> (other in s.bucket <==> other in b)) &&
            (forall other :: other != id && other in b ==> s.bucket[other] == b[other]) &&
            doc.Keys == b[id].Keys + supplied.Keys + {IdField} &&
            doc[IdField] == Str(id) &&
            (forall k :: k in supplied && k != IdField ==> doc[k] == supplied[k]) &&
            (forall k :: k in b[id] && k !in supplied && k != IdField ==> doc[k] == b[id][k])
  {
    var supplied := if extras.updates != map[] then extras.updates else record;
    var merged := b[id] + supplied[IdField := Str(id)];
    assert IdField in merged;
    assert PatchStep(b, record, id, extras, rollback).bucket == b[id := merged];
  }

  /** Merging two field sets in turn is merging their union, the later winning. */
  lemma MergeTwice(stored: Record, first: Record, second: Record, v: Value)
    ensures (stored + first[IdField := v]) + second[IdField := v] == stored + (first + second)[IdField := v]
  {
  }

  /** Writing a document twice is writing the second version. */
  lemma WriteTwice(b: Bucket, id: string, d1: Record, d2: Record)
    ensures b[id := d1][id := d2] == b[id := d2]
  {
  }

  /** Two PATCHes of the same document in a row write what one PATCH with
      both field sets (the later winning) writes. */
  lemma PatchesCompose(b: Bucket, first: Record, second: Record, id: string, extras: Extras)
    requires id in b && extras.updates == map[]
    ensures var s1 := PatchStep(b, first, id, extras, false);
            var s2 := PatchStep(s1.bucket, second, id, extras, false);
            s1.out.Ok? && s2.out.Ok? && s2.bucket == PatchStep(b, first + second, id, extras, false).bucket
  {
    var one := b[id] + PatchFields(first, id, extras);
    var two := one + PatchFields(second, id, extras);
    var both := b[id] + PatchFields(first + second, id, extras);
    assert IdField in one && IdField in both;
    var s1 := PatchStep(b, first, id, extras, false);
    assert s1.bucket == b[id := one];
    assert PatchStep(s1.bucket, second, id, extras, false).bucket == b[id := one][id := two];
    MergeTwice(b[id], first, second, Str(id));
    WriteTwice(b, id, one, two);
  }

  /** The pre-image PATCH saves for rollback is the stored document itself:
      it carries an `_id` only when the stored document does. */
  lemma PatchPreImage(b: Bucket, record: Record, id: string, extras: Extras)
    requires id in b
    ensures var s := PatchStep(b, record, id, extras, true);
            s.saved == [b[id]] && (IdField in s.saved[0] <==> IdField in b[id])
  {
    var supplied := PatchFields(record, id, extras);
    assert IdField in b[id] + supplied;
  }

  /** PATCH, DELETE and GET of a missing document fail with the bucket and
      the rollback records unchanged. */
  lemma MissingDocument(action: Verb, upsertAllowed: bool, b: Bucket, record: Record, id: string, extras: Extras, rollback: bool)
    requires action == PATCH || action == DELETE || action == GET
    requires id !in b
    ensures Dispatch(action, upsertAllowed, b, record, id, extras, rollback)
            == Step(Err(DocumentNotFound(id)), b, [])
  {
  }

  /** DELETE removes the document and returns, and with rollback saves, the
      stored document with the id in front; the `_id` of that pre-image is
      the stored document's own when it has one. */
  lemma DeleteReturnsPreImage(b: Bucket, id: string, extras: Extras, rollback: bool)
    requires id in b
    ensures var s := DeleteStep(b, id, extras, rollback);
            var pre := WithIdFirst(id, b[id]);
            s.bucket == b - {id} && id !in s.bucket &&
            s.out == Ok(Shaped(CleanRecordSpec(pre, extras.fields, Some(IdField)))) &&
            s.saved == (if rollback then [pre] else []) &&
            pre[IdField] == (if IdField in b[id] then b[id][IdField] else Str(id)) &&
            (forall k :: k in b[id] ==> k in pre && pre[k] == b[id][k])
  {
  }

  /** GET only reads. */
  lemma GetReadsOnly(b: Bucket, id: string, extras: Extras)
    ensures var s := GetStep(b, id, extras);
            s.bucket == b && s.saved == [] &&
            (id in b <==> s.out.Ok?)
  {
  }

  // ---------------------------------------------------------------------------
  // Properties of rollbackTransaction

  /** A saved record whose `_id` is empty() -- missing, "", "0", 0 -- is
      skipped by every verb's rollback. */
  lemma EmptyIdSkipped(action: Verb, b: Bucket, rr: Record)
    requires IsEmptyValue(Lookup(rr, IdField))
    ensures Undo(action, b, rr) == Ok(b)
  {
  }

  /** Rolling back a DELETE puts the document back as it was, provided the
      stored document had no `_id` field of its own and the id is not
      empty(). */
  lemma DeleteRollbackRestores(upsertAllowed: bool, b: Bucket, record: Record, id: string, extras: Extras)
    requires id in b && IdField !in b[id] && !IsEmptyText(id)
    ensures var s := Dispatch(DELETE, upsertAllowed, b, record, id, extras, true);
            Replay(DELETE, s.bucket, s.saved) == Replayed(b, None)
  {
    var pre := WithIdFirst(id, b[id]);
    assert pre - {IdField} == b[id];
    assert Lookup(pre, IdField) == Str(id);
    ReplayOne(DELETE, b - {id}, pre);
    assert (b - {id})[id := b[id]] == b;
  }

  /** Rolling back a PUT puts the replaced document back, under the same
      provisos. */
  lemma PutRollbackRestores(upsertAllowed: bool, b: Bucket, record: Record, id: string, extras: Extras)
    requires id in b && IdField !in b[id] && !IsEmptyText(id)
    requires PutRecord(record, id, extras) != map[]
    ensures var s := Dispatch(PUT, upsertAllowed, b, record, id, extras, true);
            Replay(PUT, s.bucket, s.saved) == Replayed(b, None)
  {
    var pre := WithIdFirst(id, b[id]);
    var written := b[id := PutRecord(record, id, extras)];
    assert pre - {IdField} == b[id];
    assert Lookup(pre, IdField) == Str(id);
    ReplayOne(PUT, written, pre);
    assert written[id := b[id]] == b;
  }

  /** Rolling back a PATCH of a document without an `_id` field does nothing:
      its pre-image has no `_id`, so the patched document stays. */
  lemma PatchRollbackSkipped(upsertAllowed: bool, b: Bucket, record: Record, id: string, extras: Extras)
    requires id in b && IdField !in b[id]
    ensures var s := Dispatch(PATCH, upsertAllowed, b, record, id, extras, true);
            s.saved == [b[id]] && s.bucket != b &&
            Replay(PATCH, s.bucket, s.saved) == Replayed(s.bucket, None)
  {
    var s := Dispatch(PATCH, upsertAllowed, b, record, id, extras, true);
    PatchMerges(b, record, id, extras, true);
    PatchPreImage(b, record, id, extras);
    assert IdField in s.bucket[id];
    ReplayOne(PATCH, s.bucket, b[id]);
  }

  /** A document whose id is "0" is deleted but never restored by rollback,
      because empty("0") holds. */
  lemma DeleteOfZeroNotRestored(upsertAllowed: bool, b: Bucket, record: Record, extras: Extras)
    requires "0" in b && IdField !in b["0"]
    ensures var s := Dispatch(DELETE, upsertAllowed, b, record, "0", extras, true);
            "0" !in s.bucket && Replay(DELETE, s.bucket, s.saved) == Replayed(b - {"0"}, None)
  {
    var pre := WithIdFirst("0", b["0"]);
    assert Lookup(pre, IdField) == Str("0");
    ReplayOne(DELETE, b - {"0"}, pre);
  }

  /** A PUT with updates stores the document with its `_id`. Rolling back a
      later PUT of the same document replaces it by its pre-image without
      `_id`, so the restored document has lost the field the first PUT
      stored. */
  lemma PutAfterUpdatesLosesId(upsertAllowed: bool, b: Bucket, record1: Record, extras1: Extras,
                               record2: Record, extras2: Extras, id: string)
    requires id in b && !IsEmptyText(id) && extras1.updates != map[]
    requires PutRecord(record2, id, extras2) != map[]
    ensures var doc := extras1.updates[IdField := Str(id)];
            var s1 := Dispatch(PUT, upsertAllowed, b, record1, id, extras1, false);
            var s2 := Dispatch(PUT, upsertAllowed, s1.bucket, record2, id, extras2, true);
            && s1.bucket == b[id := doc]
            && Replay(PUT, s2.bucket, s2.saved) == Replayed(b[id := doc - {IdField}], None)
            && IdField in doc && doc - {IdField} != doc
  {
    var doc := extras1.updates[IdField := Str(id)];
    PutWrites(b, record1, id, extras1, false, upsertAllowed);
    PutRollbackStripsId(upsertAllowed, b[id := doc], record2, extras2, id);
    assert b[id := doc][id := doc - {IdField}] == b[id := doc - {IdField}];
  }

  /** Rolling back a PUT of a document whose `_id` is its own id puts it back
      without `_id`. */
  lemma PutRollbackStripsId(upsertAllowed: bool, b: Bucket, record: Record, extras: Extras, id: string)
    requires id in b && !IsEmptyText(id) && IdField in b[id] && b[id][IdField] == Str(id)
    requires PutRecord(record, id, extras) != map[]
    ensures var s := Dispatch(PUT, upsertAllowed, b, record, id, extras, true);
            Replay(PUT, s.bucket, s.saved) == Replayed(b[id := b[id] - {IdField}], None)
  {
    PutWrites(b, record, id, extras, true, upsertAllowed);
    var written := b[id := PutRecord(record, id, extras)];
    var pre := WithIdFirst(id, b[id]);
    assert pre == b[id];
    assert Lookup(pre, IdField) == Str(id);
    ReplayOne(PUT, written, pre);
    assert written[id := b[id] - {IdField}] == b[id := b[id] - {IdField}];
  }

  /** The same holds for a later DELETE: rollback inserts the pre-image
      without `_id`. */
  lemma DeleteAfterUpdatesLosesId(upsertAllowed: bool, b: Bucket, record1: Record, extras1: Extras,
                                  record2: Record, extras2: Extras, id: string)
    requires id in b && !IsEmptyText(id) && extras1.updates != map[]
    ensures var doc := extras1.updates[IdField := Str(id)];
            var s1 := Dispatch(PUT, upsertAllowed, b, record1, id, extras1, false);
            var s2 := Dispatch(DELETE, upsertAllowed, s1.bucket, record2, id, extras2, true);
            && s1.bucket == b[id := doc]
            && Replay(DELETE, s2.bucket, s2.saved) == Replayed(b[id := doc - {IdField}], None)
            && IdField in doc && doc - {IdField} != doc
  {
    var doc := extras1.updates[IdField := Str(id)];
    var b1 := b[id := doc];
    PutWrites(b, record1, id, extras1, false, upsertAllowed);
    var pre := WithIdFirst(id, doc);
    assert pre == doc;
    assert Lookup(pre, IdField) == Str(id);
    ReplayOne(DELETE, b1 - {id}, pre);
    assert (b1 - {id})[id := doc - {IdField}] == b[id := doc - {IdField}];
  }
}
