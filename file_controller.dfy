/** The file-record endpoints: create, list, update and delete records, each
    scoped to the user making the request. */
module FileController {
  import opened FileModel

  type RecordId = nat

  /** What a handler answers. `Rejected` is a save that failed validation, with
      the fields that failed; `NotFound` is the 404 for a record that is missing
      or belongs to someone else. */
  datatype Reply =
    | Created(id: RecordId, record: FileRecord)
    | Updated(record: FileRecord)
    | Deleted
    | NotFound
    | Rejected(invalid: set<Field>)

  /** The record after an update: each of `filename` and `content` takes the
      value sent when that value is truthy (for a string, `Present`: non-empty)
      and keeps its old value otherwise; nothing else changes. */
  function Amend(r: FileRecord, filename: Option<string>, content: Option<string>): (a: FileRecord)
    ensures a.owner == r.owner && a.path == r.path && a.kind == r.kind
    ensures a.filename == (if Present(filename) then filename else r.filename)
    ensures a.content == (if Present(content) then content.value else r.content)
  {
    r.(filename := if Present(filename) then filename else r.filename,
       content := if Present(content) then content.value else r.content)
  }

  /** An update keeps a record that passes the schema passing it: a truthy filename is a non-empty one,
      and the fields validation looks at are otherwise untouched. */
  lemma AmendKeepsSchema(r: FileRecord, filename: Option<string>, content: Option<string>)
    requires PassesSchema(r)
    ensures PassesSchema(Amend(r, filename, content))
  {
  }

  /** An update whose values are both falsy changes nothing. */
  lemma AmendFalsyIsIdentity(r: FileRecord, filename: Option<string>, content: Option<string>)
    requires !Present(filename) && !Present(content)
    ensures Amend(r, filename, content) == r
  {
  }

  /** Sending the same update twice has the effect of sending it once. */
  lemma AmendIdempotent(r: FileRecord, filename: Option<string>, content: Option<string>)
    ensures Amend(Amend(r, filename, content), filename, content) == Amend(r, filename, content)
  {
  }

  /** The records of one user. */
  function OwnedBy(records: map<RecordId, FileRecord>, user: UserId): (mine: map<RecordId, FileRecord>)
    ensures forall id :: id in mine <==> id in records && records[id].owner == Some(user)
    ensures forall id :: id in mine ==> mine[id] == records[id]
  {
    map id | id in records && records[id].owner == Some(user) :: records[id]
  }

  /** No record is listed for two different users. */
  lemma OwnedByDisjoint(records: map<RecordId, FileRecord>, u: UserId, v: UserId)
    requires u != v
    ensures OwnedBy(records, u).Keys !! OwnedBy(records, v).Keys
  {
  }

  /** The file collection: records by id, and the id the next record will get. */
  class FileStore {
    var records: map<RecordId, FileRecord>
    var nextId: RecordId

    ghost predicate Valid()
      reads this
    {
      forall id :: id in records ==> id < nextId
    }

    constructor (initial: map<RecordId, FileRecord>, next: RecordId)
      requires forall id :: id in initial ==> id < next
      ensures Valid() && records == initial && nextId == next
    {
      records := initial;
      nextId := next;
    }

    /** Saving a new record: it is stored under a fresh id when it passes
        validation, and rejected with its failing fields otherwise. */
    method Insert(r: FileRecord) returns (reply: Reply)
      requires Valid()
      modifies this
      ensures Valid()
      ensures PassesSchema(r) ==>
        (reply == Created(old(nextId), r) && old(nextId) !in old(records) && records == old(records)[old(nextId) := r])
      ensures !PassesSchema(r) ==> reply == Rejected(Validate(r)) && records == old(records)
    {
      if PassesSchema(r) {
        reply := Created(nextId, r);
        records := records[nextId := r];
        nextId := nextId + 1;
      } else {
        reply := Rejected(Validate(r));
      }
    }

    /** POST: a record with the requester as owner, the filename and content
        sent, and nothing else; validation always turns it down, since it has
        neither a path nor a type. */
    method CreateFile(user: UserId, filename: Option<string>, content: Option<string>) returns (reply: Reply)
      requires Valid()
      modifies this
      ensures Valid()
      ensures reply == Rejected(Validate(NewRecord(user, filename, content)))
      ensures reply.Rejected? && PathField in reply.invalid && Kind in reply.invalid
      ensures (Filename in reply.invalid) <==> !Present(filename)
      ensures records == old(records)
    {
      NewRecordInvalid(user, filename, content);
      reply := Insert(NewRecord(user, filename, content));
    }

    /** GET: the requester's records. */
    function GetFiles(user: UserId): (files: map<RecordId, FileRecord>)
      reads this
      ensures forall id :: id in files <==> id in records && records[id].owner == Some(user)
      ensures forall id :: id in files ==> files[id] == records[id]
    {
      OwnedBy(records, user)
    }

    /** PUT: update the filename and content of one of the requester's records;
        any other record, the requester's own missing one included, is a 404. */
    method UpdateFile(user: UserId, id: RecordId, filename: Option<string>, content: Option<string>) returns (reply: Reply)
      requires Valid()
      modifies this
      ensures Valid()
      ensures reply == NotFound <==> id !in old(records) || old(records)[id].owner != Some(user)
      ensures reply.Updated? ==>
        (id in old(records) && reply.record == Amend(old(records)[id], filename, content)
         && records == old(records)[id := reply.record])
      ensures reply.Rejected? ==>
        (id in old(records) && reply.invalid == Validate(Amend(old(records)[id], filename, content)) && reply.invalid != {})
      ensures reply.Updated? || reply.Rejected? || reply == NotFound
      ensures !reply.Updated? ==> records == old(records)
      ensures reply != NotFound && PassesSchema(old(records)[id]) ==> reply.Updated?
      ensures forall u :: u != user ==> OwnedBy(records, u) == OwnedBy(old(records), u)
    {
      if id !in records || records[id].owner != Some(user) {
        return NotFound;
      }
      var amended := Amend(records[id], filename, content);
      if PassesSchema(records[id]) {
        AmendKeepsSchema(records[id], filename, content);
      }
      if PassesSchema(amended) {
        records := records[id := amended];
        reply := Updated(amended);
      } else {
        reply := Rejected(Validate(amended));
      }
    }

    /** DELETE: remove one of the requester's records; any other record is a 404
        and nothing is removed. */
    method DeleteFile(user: UserId, id: RecordId) returns (reply: Reply)
      requires Valid()
      modifies this
      ensures Valid()
      ensures reply == Deleted <==> id in old(records) && old(records)[id].owner == Some(user)
      ensures reply == Deleted || reply == NotFound
      ensures reply == Deleted ==> records == old(records) - {id}
      ensures reply == NotFound ==> records == old(records)
      ensures forall u :: u != user ==> OwnedBy(records, u) == OwnedBy(old(records), u)
    {
      if id in records && records[id].owner == Some(user) {
        records := records - {id};
        reply := Deleted;
      } else {
        reply := NotFound;
      }
    }
  }
}
