/** The stored file record and the schema validation the database layer applies
    to it before every save. */
module FileModel {

  /** The id of a user, as carried in the authentication token. */
  type UserId = nat

  datatype Option<T> = None | Some(value: T)

  /** A record as it is about to be saved. `None` is a field that was never set. */
  datatype FileRecord = FileRecord(
    owner: Option<UserId>,
    filename: Option<string>,
    path: Option<string>,
    kind: Option<string>,
    content: string)

  /** The fields a validation error can name. */
  datatype Field = Owner | Filename | PathField | Kind

  /** The values the `type` field may take. */
  const Kinds: set<string> := {"file", "folder"}

  /** A required string is satisfied by a non-empty string only. */
  predicate Present(s: Option<string>)
  {
    s.Some? && s.value != ""
  }

  /** The fields that fail validation: a missing owner; a missing or empty
      filename or path; a type that is missing, empty, or outside `Kinds`. */
  function Validate(r: FileRecord): (bad: set<Field>)
    ensures Owner in bad <==> r.owner == None
    ensures Filename in bad <==> r.filename == None || r.filename == Some("")
    ensures PathField in bad <==> r.path == None || r.path == Some("")
    ensures Kind in bad <==> r.kind != Some("file") && r.kind != Some("folder")
  {
    assert r.filename.Some? ==> (r.filename == Some("") <==> r.filename.value == "");
    assert r.path.Some? ==> (r.path == Some("") <==> r.path.value == "");
    (if r.owner.None? then {Owner} else {})
    + (if Present(r.filename) then {} else {Filename})
    + (if Present(r.path) then {} else {PathField})
    + (if r.kind.Some? && r.kind.value in Kinds then {} else {Kind})
  }

  /** A record passes the schema exactly when every required field holds a
      value the schema accepts. */
  predicate PassesSchema(r: FileRecord): (ok: bool)
    ensures ok <==> && r.owner.Some? && Present(r.filename) && Present(r.path)
                    && (r.kind == Some("file") || r.kind == Some("folder"))
  {
    Validate(r) == {}
  }

  /** A new record built from the given fields, with `content` defaulting to the
      empty string; `path` and `type` are left unset. */
  function NewRecord(owner: UserId, filename: Option<string>, content: Option<string>): (r: FileRecord)
    ensures r.owner == Some(owner) && r.filename == filename
    ensures r.path.None? && r.kind.None?
    ensures content.None? ==> r.content == ""
    ensures content.Some? ==> r.content == content.value
  {
    FileRecord(Some(owner), filename, None, None, if content.Some? then content.value else "")
  }

  /** A record built from only an owner, a filename and a content never passes
      validation: the path and the type are always reported, and the filename
      too when it is missing or empty. */
  lemma NewRecordInvalid(owner: UserId, filename: Option<string>, content: Option<string>)
    ensures !PassesSchema(NewRecord(owner, filename, content))
    ensures Validate(NewRecord(owner, filename, content)) == (if Present(filename) then {PathField, Kind} else {Filename, PathField, Kind})
  {
  }
}
