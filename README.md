# filebuddy-api: directory and file-record handlers, modelled in Dafny

filebuddy-api is a small Express backend with two resources.

- **`/fs`** lists, creates, reads, deletes, copies and moves entries of the server's real
  filesystem through Node's `fs/promises`.
- **`/files`** stores text "file" records in MongoDB, each scoped to the user who owns it.

This project models the request handlers of both resources and the schema that
validates a file record. It proves what each handler answers and what it leaves behind.

- `posix.dfy` (module `Posix`): the filesystem as a map from absolute paths
  (sequences of names) to `Dir` or `File(content)`, with a `WellFormed` invariant.
  The root is a directory, and every other entry's parent is a directory.
  - Each Node call the handlers make is a function from the old tree to an errno
    or a new tree: `stat`, `readdir`, `mkdir` (plain and recursive), `writeFile`
    with the `wx` flag, `unlink`, `rmdir`, `rm` (recursive), `copyFile` and
    `fs.cp` (recursive).
  - The two-step moves (copy then remove) are `MoveFile` and `MoveTree`.
- `fs_controller.dfy` (module `FsController`): class `Volume` holds the tree the
  server mutates, plus the working directory that listing falls back to.
  - There is one method per handler. Each states its status codes exactly
    (200/201, 400, 404, 409, 500) and the new tree.
  - JavaScript truthiness of request values is modelled explicitly (`Truthy`,
    `Supplied`), and so is the strict comparison `recursive === 'true'`.
- `file_model.dfy` (module `FileModel`): the record, Mongoose's `required`
  and `enum` checks as `Validate`/`PassesSchema`, and the `content` default.
- `file_controller.dfy` (module `FileController`): class `FileStore` holds the
  records by id.
  - The methods are create, list, update and delete, each scoped to the requester.
  - The update fallback (a falsy value keeps the old one) is the function `Amend`.

Behaviour of the code that the proofs make explicit:

- **`createFile` always fails validation.** It builds a record from `filename`,
  `content` and the owner only, and the schema requires `path` and `type`.
  The code therefore never reaches its 201 reply. The model follows the code:
  `CreateFile` returns `Rejected` with `PathField` and `Kind` among the failing
  fields, and stores nothing.
- **Moving a file onto its own path deletes it.** `copyFile` onto the same
  file leaves it as it was, and the following `unlink` removes it
  (`MoveFileLeavesNothing`).
- **Moving a directory into one of its own ancestors can lose data.** `fs.cp`
  merges the copy over the ancestor, and the recursive `rm` of the source then
  also removes whatever the copy placed inside the source. `MovedTreeArrives`
  therefore promises the whole subtree only when the destination is not an
  ancestor of the source.
- **Copy and move report a missing destination directory as 404 "Source path not found".**
  When a file is copied or moved into a directory that does not exist, `copyFile`
  raises ENOENT.
- **Creating a file below an existing file gives 409 "File already exists".**
  `mkdir -p` of the parent raises EEXIST when the parent is a file.
- **Creating a file below a path that runs through a file gives 500.**
  `mkdir -p` of the parent raises ENOTDIR in that case.
- **The files are not kept in sync with any metadata.** None of the `/fs`
  handlers writes a metadata record to the database. The model has no such
  index, because the code has none.

## Model

| member | source | states |
|---|---|---|
| Posix.Dirname | src/controllers/fs.controller.js:63 | the parent of a non-root path is that path without its last name; the root is its own parent |
| Posix.Lookup | src/controllers/fs.controller.js:87 | `stat` succeeds exactly on existing paths and returns their entry; otherwise it fails with ENOENT or ENOTDIR only |
| Posix.LookupNotDirectory | src/controllers/fs.controller.js:30-34 | `stat` fails with ENOTDIR exactly when some proper prefix of the path is a file |
| Posix.AncestorsAreDirs | src/controllers/fs.controller.js:114-117 | in a well-formed tree every proper prefix of an existing path is a directory |
| Posix.ReadDir | src/controllers/fs.controller.js:12 | `readdir` succeeds exactly on directories and yields exactly the names `n` with `p + [n]` present; a file gives ENOTDIR, a missing path gives `stat`'s error |
| Posix.Create | src/controllers/fs.controller.js:51 | exclusive creation succeeds exactly when the path is new and its parent is a directory, adding just that entry; EEXIST exactly when the path exists |
| Posix.AddAncestors | src/controllers/fs.controller.js:64 | the directories `mkdir -p` adds: the path becomes a directory, old entries stay, every new entry is a prefix of the path and a directory |
| Posix.MakeDirs | src/controllers/fs.controller.js:64 | `mkdir -p` succeeds exactly when the path is a directory or missing below directories; a file at the path is EEXIST, a file above it ENOTDIR |
| Posix.Unlink | src/controllers/fs.controller.js:120 | `unlink` succeeds exactly on an existing file and leaves the tree without that one entry, fails with EISDIR on a directory, and otherwise fails with the error `stat` gives for the path. |
| Posix.Rmdir | src/controllers/fs.controller.js:135 | `rmdir` succeeds exactly on an empty directory other than the root and leaves the tree without that one entry, fails with ENOTEMPTY on a directory that has children, and fails with ENOTDIR on a file. |
| Posix.Prune | src/controllers/fs.controller.js:126 | the tree without the path and everything below it, the rest untouched |
| Posix.NothingBelowLeaf | src/controllers/fs.controller.js:119-121 | nothing lies below a file or below a directory without children |
| Posix.LeafPrune | src/controllers/fs.controller.js:119-136 | removing a file or an empty directory is the same as removing its whole subtree |
| Posix.Remove | src/controllers/fs.controller.js:126 | recursive `rm` succeeds exactly on an existing non-root path (or a missing one under `force`) and leaves `Prune` of the tree; the root is EBUSY |
| Posix.CopyFile | src/controllers/fs.controller.js:168 | `copyFile` succeeds exactly for a file source and a destination that is a file or new under a directory; the result is the tree with the destination set to the source's entry; ENOENT exactly for a missing source or a missing destination directory |
| Posix.Clash | src/controllers/fs.controller.js:166 | the kind check of `fs.cp` fails exactly when some entry below the destination has a counterpart below the source of the other kind |
| Posix.RebaseBack | src/controllers/fs.controller.js:166 | relocating a copied path back to the source gives the original path |
| Posix.GraftWellFormed | src/controllers/fs.controller.js:166 | laying a subtree over a destination whose parent is a directory, with no kind clash, keeps the tree well formed |
| Posix.CopyTree | src/controllers/fs.controller.js:166 | a successful `fs.cp` keeps every old path present, places every source entry at its rebased path with its content, leaves the value of every old entry that no copied entry lands on unchanged, and adds only directories above the destination or copies below it; ENOENT exactly when the source is missing |
| Posix.CopyTreeKeepsSource | src/controllers/fs.controller.js:166 | a successful `fs.cp` leaves the source subtree as it was unless the destination is an ancestor of the source |
| Posix.RebaseLeavesSource | src/controllers/fs.controller.js:198-199 | when source and destination are unrelated, no copied path lands inside the source |
| Posix.MoveFile | src/controllers/fs.controller.js:201-202 | a file move succeeds exactly when its `copyFile` does, fails with that call's error otherwise, and leaves the tree with the destination set to the file and the source removed |
| Posix.MoveTree | src/controllers/fs.controller.js:198-199 | a directory move succeeds exactly when its `fs.cp` does, fails with that call's error otherwise, and leaves the copy with the source subtree pruned |
| Posix.MoveFileLeavesNothing | src/controllers/fs.controller.js:201-202 | after a file move nothing is at or below the source; moving a file onto itself deletes it |
| Posix.CopyNotBelowFile | src/controllers/fs.controller.js:168 | a successful `copyFile` never writes below its own source |
| Posix.MoveTreeLeavesNothing | src/controllers/fs.controller.js:198-199 | after a directory move nothing is at or below the source |
| Posix.MovedTreeArrives | src/controllers/fs.controller.js:198-199 | after a directory move to a place that is not an ancestor of the source, every source entry is found at its rebased path with its old content |
| FsController.Truthy | src/controllers/fs.controller.js:149-162 | a request value is falsy exactly when it is absent, `null`, `false`, `0` or the empty string |
| FsController.Supplied | src/controllers/fs.controller.js:110 | a path argument passes the `!path` check exactly when it was sent and is a truthy string |
| FsController.ListStatus | src/controllers/fs.controller.js:29-36 | a failed listing answers 404 exactly for ENOENT, 400 exactly for ENOTDIR, and 500 otherwise |
| FsController.CreateStatus | src/controllers/fs.controller.js:53-72 | a failed creation answers 409 exactly for EEXIST and 500 otherwise |
| FsController.FailStatus | src/controllers/fs.controller.js:139-144 | a failed view, delete, copy or move answers 404 exactly for ENOENT and 500 otherwise (the same catch block is at lines 96-102, 172-177 and 206-211) |
| FsController.Describe | src/controllers/fs.controller.js:14-26 | one entry per child name, each name once, each with its kind |
| FsController.Volume.constructor | src/controllers/fs.controller.js:5 | the server starts on a well-formed tree in its working directory |
| FsController.Volume.ListDirectory | src/controllers/fs.controller.js:7-37 | a falsy path lists the working directory; a directory yields every child exactly once with its kind; 404 exactly for ENOENT; 400 exactly for a file or a path through a file |
| FsController.Volume.CreateItem | src/controllers/fs.controller.js:40-74 | 400 for a falsy path or a type other than `file`/`dir`; `dir`: 201 exactly when new with an existing parent directory, 409 exactly when the path exists, else 500; `file`: 201 makes the empty file and only missing parent directories, 409 when the path exists or its parent is a file, else 500; no change unless 201 |
| FsController.Volume.ViewFileContent | src/controllers/fs.controller.js:77-103 | 400 for a falsy path or a directory; the file's text exactly for a file; 404 exactly for ENOENT; 500 exactly for ENOTDIR |
| FsController.Volume.DeletePath | src/controllers/fs.controller.js:106-145 | 200 exactly for a non-root file, empty directory, or directory with `recursive=true`, removing the path and its subtree; 400 for a falsy path or a non-empty directory without `recursive=true`; 404 exactly for ENOENT; no change unless 200 |
| FsController.Volume.CopyPath | src/controllers/fs.controller.js:148-178 | 400 for a falsy path or a directory without truthy `recursive`; 404 exactly for a missing source or a missing destination directory of a file copy; a file is copied by `copyFile`, a directory by `fs.cp`, and 200 exactly when that call succeeds; no change unless 200 |
| FsController.Volume.MovePath | src/controllers/fs.controller.js:181-212 | as copy, with the new tree that of `MoveFile` or `MoveTree`; 200 exactly when the copy step succeeds; no change unless 200 |
| FileModel.Validate | src/models/file.model.js:7-24 | validation reports the owner exactly when it is missing, the filename and the path each exactly when missing or empty, and the type exactly when it is neither `file` nor `folder` |
| FileModel.PassesSchema | src/models/file.model.js:5-31 | a record passes the schema exactly when it has an owner, a non-empty filename and path, and a type of `file` or `folder` |
| FileModel.NewRecord | src/models/file.model.js:25-28 | a new record carries the given owner and filename, no path or type, and content defaulting to `""` |
| FileModel.NewRecordInvalid | src/controllers/file.controller.js:6 | the record `createFile` builds never validates: path and type are always reported, the filename exactly when it is falsy |
| FileController.Amend | src/controllers/file.controller.js:20-21 | the update sets filename and content to the sent value when truthy and keeps the old one otherwise; owner, path and type are untouched |
| FileController.AmendKeepsSchema | src/controllers/file.controller.js:20-22 | an update of a record that passes the schema always passes it again on save |
| FileController.AmendFalsyIsIdentity | src/controllers/file.controller.js:20-21 | an update with both values falsy changes nothing |
| FileController.AmendIdempotent | src/controllers/file.controller.js:20-21 | applying the same update twice equals applying it once |
| FileController.OwnedBy | src/controllers/file.controller.js:11 | exactly the records whose owner is the given user, unchanged |
| FileController.OwnedByDisjoint | src/controllers/file.controller.js:11 | two different users' record sets share no id |
| FileController.FileStore.Insert | src/controllers/file.controller.js:6 | a record that passes the schema is stored under a fresh id; any other is rejected with its failing fields and nothing changes |
| FileController.FileStore.CreateFile | src/controllers/file.controller.js:4-8 | always rejected, with path and type among the failing fields and the filename exactly when falsy; nothing is stored |
| FileController.FileStore.GetFiles | src/controllers/file.controller.js:10-13 | exactly the requester's records |
| FileController.FileStore.UpdateFile | src/controllers/file.controller.js:15-24 | 404 exactly when the id is missing or owned by someone else; otherwise the amended record is saved if it validates (always, when the stored one was valid) and rejected otherwise; other users' records never change |
| FileController.FileStore.DeleteFile | src/controllers/file.controller.js:26-32 | removes the record exactly when it exists and is the requester's, otherwise 404 with no change; other users' records never change |

## Left out

- Path resolution (`path.resolve` against `process.cwd()`) is not modelled. A path
  argument carries its already-resolved absolute path. Nothing confines it below
  the working directory, in the code or in the model.
- The handlers pass non-string path values to `path.resolve` outside their `try`
  block, where a TypeError is thrown. Query parameters repeated into arrays are
  another case. Neither is modelled: path arguments are strings or absent.
- Listing entries carry only a name and a kind. Sizes, modification times and the
  per-entry `stat` (and its failure, a 500) are left out. So are the order
  `readdir` returns names in and the concurrency of `Promise.all`.
- The filesystem has only directories and regular files. Symbolic links and
  special files are out of scope. So are permissions, full disks and other I/O
  errors: the model's calls never fail for those reasons.
- Posix.Remove: removing the root fails with EBUSY and changes nothing. A real
  recursive `rm` of `/` would first delete what it could.
- Posix.CopyTree: all-or-nothing. Every kind clash is checked before anything is
  written, and the copy is taken from the tree as it was before the call. A real
  `fs.cp` that fails midway leaves a partial copy, and one that copies into its own
  source reads entries it has already written.
- Posix.CopyTree: it states what a successful copy leaves behind and that ENOENT
  means a missing source. It does not state an exact condition for success, nor
  which of the other codes a failure carries.
- FsController.Volume.MovePath: when `rm` or `unlink` fails after a successful
  copy, the copy would stay in place. The model proves that removal cannot fail
  there, so that state never arises.
- Response bodies other than listings and file text (the JSON messages and
  `details`) are reduced to their status codes.
- Numbers in request bodies are reals. NaN (falsy in JavaScript) is not among them.
- Authentication and the user id come from the request. Routing, server bootstrap
  and the database connection are not modelled.
- MongoDB ObjectIds are natural numbers, and new ids come from a counter. A
  malformed id in the URL (a CastError) is not modelled.
- Record fields from the request body are strings or absent. Mongoose's casting
  of numbers and booleans, and its errors for objects, are left out. So are
  `null` values and the `createdAt`/`updatedAt` timestamps.
- The order `find` returns records in is not modelled: records are a map by id.
- FileController.FileStore.CreateFile: the save raises a ValidationError. The
  status the client then sees depends on the error middleware, which is not part
  of this model. The model reports `Rejected` with the failing fields.
- FileController.FileStore.UpdateFile: the same holds for its `file.save()` when the
  amended record fails validation. The model reports `Rejected` with the failing
  fields and leaves the stored record unchanged.
- FsController.Volume.ViewFileContent: `readFile` decodes the file's bytes as
  UTF-8. File contents are modelled as the stored text, so bytes and their
  decoding (including invalid UTF-8) are not modelled.
