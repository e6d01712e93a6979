# Chromify file bookkeeping, modelled in Dafny

Chromify is a small Flask application. It takes an uploaded black-and-white
image, colorizes it with a pretrained network, and returns the URLs of the
original and the result. Every file it writes is recorded in a registry: a
JSON document holding an ordered list of `{path, created, session_id}`
records. Files leave the registry and the disk in two ways. A retention sweep
drops every record older than sixty minutes. A client can also ask for its
own files to be deleted.

This project models that bookkeeping from `app.py`:

- upload validation (`allowed_file`);
- the registry store (`get_file_db`, `save_file_db`, `register_file`);
- the retention sweep (`cleanup_files` and the `/api/cleanup/expired` route);
- the session-scoped explicit delete (`cleanup_specific`);
- the validation, naming and registration sequence of `api_colorize`.

Layout, one module per file:

- `wrappers.dfy` — `Option`.
- `paths.dfy` — the POSIX path operations the code relies on: `rfind`,
  two-argument `os.path.join`, `os.path.basename` and the extension half of
  `os.path.splitext`.
- `validation.dfy` — `allowed_file` and the set of accepted extensions.
- `registry.dfy` — the record type, the persisted document (missing,
  unparsable or saved) and the "not among the marked records" filter.
- `sweep.dfy` — the retention rule as functions on the table, with lemmas.
- `deletion.dfy` — the explicit-delete selection rule as functions on the
  table, with lemmas.
- `app.dfy` — class `Server`. Its fields are the registry document, the set
  of paths on disk, the paths whose removal raises, and the application root.
  Its methods are the handlers, proved against the functions of
  `sweep.dfy` and `deletion.dfy`.

Two facts the proofs bring out about the source:

- In `cleanup_specific` the full-path comparison never decides anything.
  `os.path.join` keeps the basename of what it joins, and so does dropping a
  leading '/'. So an entry whose path equals the normalised request also has
  the request's basename. An entry is therefore reached exactly when it
  belongs to the caller and its file name equals the requested one, in any
  directory (`Deletion.MatchesIsBasenameMatch`).
- `files_removed` counts one per (requested path, reached entry) pair. It
  can exceed the number of records removed, for example when a client names
  one file both by its URL and by its bare name (`Deletion.CountExceedsRemoved`).

## Model

| member | source | states |
|---|---|---|
| Paths.LastIndexOf | app.py:28-29 | the position found holds the character and nothing after it does; None exactly when the character is absent (the split point of `rsplit('.', 1)`) |
| Paths.LastOccurrenceUnique | app.py:28-29 | the split point of `rsplit` is unique: two positions that both hold the last occurrence are the same |
| Paths.Join | app.py:127-128 | `os.path.join`: the result ends with the second component; an absolute second component replaces the first; otherwise the first is kept as a prefix, with a '/' between them when the first is non-empty |
| Paths.JoinCases | app.py:127-128 | for a relative second component the result is exactly `a + b` when `a` is empty or ends in '/', and exactly `a + "/" + b` otherwise |
| Paths.Basename | app.py:145-146 | `os.path.basename`: the last component, a '/'-free suffix of the path that is all of it or preceded by '/' |
| Paths.BasenameUnique | app.py:187 | a path has only one last component, so any such suffix is the basename |
| Paths.BasenameOfSuffix | app.py:186-187 | a suffix of a path that is all of it or begins after a '/' has the path's basename |
| Paths.BasenameOfJoin | app.py:179-181 | joining onto the application root never changes the basename of the requested path |
| Paths.BasenameWithoutLeadingSlash | app.py:178-179 | stripping the leading '/' of a requested path keeps its basename |
| Paths.BasenameAfterSlash | app.py:145-146 | a '/'-free name placed after a directory ending in '/' is the basename of the result |
| Paths.Extension | app.py:125 | the `ext` of `os.path.splitext` is a suffix of the name; when non-empty it starts with '.' and holds no further '.' and no '/' |
| Paths.ExtensionOfLastComponent | app.py:125 | when the last '.' lies in the last component and is preceded there by a character other than '.', the extension is exactly the text from that '.' to the end |
| Paths.ExtensionHasStem | app.py:125 | a non-empty extension always has a stem: some character other than '.' before it in the last component |
| Validation.Lower | app.py:29 | `.lower()` keeps the length and lower-cases each character in place; its meaning for validation is in `LowerTwice`, `LastDotOfLower` and `AllowedFileIgnoresCase` |
| Validation.LowerTail | app.py:29 | lower-casing the text after the split point is the same as taking that text from the lower-cased name |
| Validation.LowerTwice | app.py:29 | lower-casing is idempotent |
| Validation.LastDotOfLower | app.py:28-29 | lower-casing moves no '.', so `rsplit('.', 1)` splits the lower-cased name at the same place |
| Validation.HasAllowedExtension | app.py:27-29 | for any configured set, a name without '.' is refused, and an empty set refuses every name |
| Validation.AllowedFile | app.py:27-29 | an accepted name has a last '.' followed by three or four characters, so it is at least four characters long |
| Validation.AllowedFileIff | app.py:27-29 | for any configured `ALLOWED_EXTENSIONS` set (png, jpg, jpeg, gif in `AllowedFile`), a name is accepted if and only if it has a '.' whose following text holds no '.' and lower-cases to a member of the set |
| Validation.AllowedFileIgnoresCase | app.py:27-29 | for any configured extension set, a name is accepted exactly when its lower-cased form is |
| Validation.AcceptedExamples | app.py:27-29 | "cat.JPG", "photo.tar.gif" and ".png" are accepted |
| Validation.RefusedExamples | app.py:27-29 | "notes.txt", "png", "image.png.exe" and "scan." are refused |
| Validation.ExtensionOfAllowedName | app.py:119-125 | for an accepted name without '/' and not starting with '.', the extension `os.path.splitext` takes from that name itself is the '.' and the text `allowed_file` validated |
| Registry.Load | app.py:31-40 | a missing or unparsable document reads as the empty table; a saved one reads back as exactly what was saved, which is the `save_file_db` / `get_file_db` round trip (`App.Server.SaveFileDb`) |
| Registry.Without | app.py:91 | the "not among the marked records" filter keeps a record exactly when it was in the table and is not marked, and never lengthens the table |
| Registry.WithoutNothing | app.py:91 | filtering by an empty marked list keeps the whole table |
| Sweep.IsExpired | app.py:76-78 | a record has expired exactly when it was registered more than 3600 seconds before `now` |
| Sweep.Expired | app.py:76-87 | the marked records are no more than the table's rows, and each of them has expired |
| Sweep.Kept | app.py:91 | the kept records are no more than the table's rows, and none of them has expired |
| Sweep.RetentionBoundary | app.py:71-78 | a record exactly 3600 seconds old is kept; one 3601 seconds old expires |
| Sweep.ExpiredMembers | app.py:76-87 | a record is marked exactly when it is in the table and expired |
| Sweep.KeptMembers | app.py:91 | a record is kept exactly when it is in the table and not expired |
| Sweep.SweepPartition | app.py:76-91 | kept and marked records together are the table, counting duplicates |
| Sweep.SweepDisjoint | app.py:76-91 | no record is both kept and marked |
| Sweep.KeptAppend | app.py:91 | the sweep keeps relative order: sweeping a concatenation concatenates the sweeps |
| Sweep.WithoutExpiredIsKept | app.py:91 | the `f not in files_to_remove` filter, given the marked records, leaves exactly the unexpired ones in order |
| Sweep.WithoutExpired | app.py:76-91 | filtering the table by the records its own scan marked leaves exactly the records a sweep keeps |
| Sweep.SweepIdempotent | app.py:76-92 | after a sweep at `now` nothing left is expired, and sweeping again at `now` keeps everything |
| Deletion.Normalize | app.py:178-181 | the normalised request ends with the requested path less its leading '/', and is exactly that text when it is itself absolute |
| Deletion.MatchesIsBasenameMatch | app.py:178-188 | the match test holds exactly when the basenames agree and the entry is the caller's |
| Deletion.Hits | app.py:184-198 | one requested path marks at most one entry per row |
| Deletion.Unselected | app.py:202 | what remains is never longer than the table |
| Deletion.RequestedWitness | app.py:176-188 | an entry reached by the request is matched by one of the requested paths |
| Deletion.RequestedByAny | app.py:176-188 | an entry matched by any requested path is reached |
| Deletion.HitsMembers | app.py:184-198 | one requested path marks exactly the table entries it matches |
| Deletion.MatchedMembers | app.py:176-198 | an entry is marked exactly when it is in the table and some requested path reaches it |
| Deletion.MatchedBound | app.py:176-198 | there are at most as many marks as (requested path, row) pairs |
| Deletion.UnselectedMembers | app.py:202 | an entry remains exactly when it was in the table and no requested path reaches it |
| Deletion.WithoutRequestedIsUnselected | app.py:202 | the `f not in files_to_remove` filter, given the marked entries, leaves exactly the unreached ones in order |
| Deletion.WithoutMatchedIsUnselected | app.py:176-202 | filtering the table by the entries its own scan marked leaves exactly the unreached ones in order |
| Deletion.MatchedGrowth | app.py:184-198 | one more row in the table adds at least one mark when some requested path reaches it |
| Deletion.CountCoversRemoved | app.py:198-205 | `files_removed` is never less than the number of records the request removes |
| Deletion.OnlyRequestedRemoved | app.py:202 | no entry gains occurrences, and any entry that loses one was reached by a requested path |
| Deletion.RequestedIsCallers | app.py:186-188 | only entries of the caller's session can be reached |
| Deletion.OtherSessionsUntouched | app.py:184-202 | every entry of another session occurs after the request exactly as often as before |
| Deletion.DeletedPathsAreCallers | app.py:186-193 | a path the request deletes from disk belongs to a reached entry of the caller |
| Deletion.SameFileNames | app.py:187 | a stored path, its URL and its bare file name have the same basename |
| Deletion.ExampleReachedByOwner | app.py:178-188 | the owner reaches its entry both by URL and by bare file name |
| Deletion.TwoRequestsOneEntry | app.py:176-202 | for two requested paths and one entry: one mark per path that matches, and the entry goes if either matches |
| Deletion.CountExceedsRemoved | app.py:198-205 | requesting one entry by URL and by file name reports 2 while removing 1 record; the same request from another session reports 0 and removes nothing |
| App.StoredPath | app.py:127-128 | a relative `{id}{role}{ext}` is stored at exactly `static/uploads/{id}{role}{ext}`; an absolute one would replace the folder |
| App.PublicUrl | app.py:145-146 | the URL is `/static/uploads/` followed by a single '/'-free component, the stored file's basename |
| App.PairPathsDistinct | app.py:127-128 | the original and the colorized file of one upload are different paths |
| App.PublicUrlOfStoredPath | app.py:145-146 | the URL of a stored file is `/static/uploads/` followed by the name it was stored under |
| App.PairUrls | app.py:144-146 | for an identifier and an extension without '/', the two URLs are `/static/uploads/{id}_original{ext}` and `/static/uploads/{id}_colorized{ext}` |
| App.ColorizedPairUrls | app.py:124-146 | the two URLs of an upload are `{id}_original{ext}` and `{id}_colorized{ext}` with the same identifier and extension |
| App.Server.GetFileDb | app.py:31-40 | returns the table the document reads as, so after `SaveFileDb(t)` it returns `t` |
| App.Server.SaveFileDb | app.py:42-45 | the document now holds exactly the given table, and the next load reads it back |
| App.Server.RemoveFile | app.py:80-85 | an existing path is removed unless removal raises; a missing path is not an error |
| App.Server.RegisterFile | app.py:47-55 | the table becomes the old table plus exactly one record `{path, now, session}` at the end |
| App.Server.CleanupFiles | app.py:67-93 | marks exactly the expired records; the table becomes the kept records in order; exactly the marked paths that can be removed leave the disk; the document is rewritten with the kept records when something was marked, and untouched otherwise |
| App.Server.CleanupExpired | app.py:210-214 | runs one sweep and answers with the completion status: the table becomes the kept records, the expired paths that can be removed leave the disk, and the document is untouched when nothing had expired |
| App.Server.CleanupFilesTwice | app.py:76-92 | a second sweep at the same time marks nothing; the pair leaves the table, the disk and the document exactly as the first sweep did |
| App.Server.RemoveRequested | app.py:173-203 | for any match test: marks one entry per (path, matching entry) pair, leaves exactly the unreached entries in order, deletes exactly the marked paths that can be removed, and rewrites the document with the unreached entries only when something was marked |
| App.Server.CleanupSpecific | app.py:166-207 | a request without a `files` list gets "Invalid request format" and changes nothing; otherwise the caller's session (or '') selects with the source's match test, the reply counts the marks, and the document is rewritten only when something was marked |
| App.Server.StoreUpload | app.py:131-134 | after saving and registering, the path exists and one record for it is appended |
| App.Server.ApiColorize | app.py:103-150 | missing, unnamed and refused uploads get their 400 message with no write; otherwise the original is saved and registered first; the colorized file follows only on success, with the same identifier, extension and session; a failure leaves only the original and returns the error |

## Left out

- `scheduled_cleanup`, `start_cleanup_thread` and `create_app`: an endless daemon thread that sleeps 15 minutes between passes. Only the single pass, `cleanup_files`, is modelled.
- Concurrency: requests and the sweeper load, modify and save the document without locking. The model is sequential, so it does not show lost updates between them.
- Flask plumbing: routing, `jsonify`, `render_template`, the index and placeholder routes, the cache-control headers, and the 16 MB `MAX_CONTENT_LENGTH` limit that Flask enforces.
- JSON parsing and real file I/O. The document is `Missing`, `Unparsable` or `Saved(table)`. A saved document without a `files` key makes the source raise; the model has no such document.
- `os.remove` failures are modelled by the fixed set `undeletable`: removal of those paths raises, the error is only logged, and the record is still dropped. Log output is not modelled.
- `time.time()` returns a float. The model stamps records with `int` seconds passed in by the caller.
- `uuid.uuid4()`, `werkzeug.secure_filename` and `colorize_image` are parameters. The fresh session id and the upload id are strings. `secure_filename` is any total function on strings. The colorizer is an outcome: success writes the colorized file; failure writes nothing and carries the exception text.
- Validation.ExtensionOfAllowedName: speaks of the extension of the uploaded name itself. The stored files take their extension from what `secure_filename` returns, which the model leaves unconstrained, so the model does not prove that the stored extension is the one `allowed_file` validated.
- App.Server.ApiColorize: the 500 branch assumes the failed colorizer wrote no file. A colorizer that writes a partial result and then raises would leave that file on disk, unregistered.
- App.Server.CleanupSpecific: a body that is not JSON, or a `files` list holding non-strings, makes the source raise; the model's request is either a list of strings or malformed. In the source such a raise can come part-way: `startswith` fails on the first non-string entry after the files reached by the earlier string entries have already been removed from disk, and the document is then never saved, so its records are left pointing at deleted files. The model does not capture that partial effect.
- Validation.Lower: lower-cases ASCII letters only, while `str.lower` also maps other letters. No other character lower-cases to text made of the letters of png, jpg, jpeg or gif, so the verdict of `allowed_file` is the same.
- Paths: only POSIX paths with two-component joins are modelled.
- The session cookie the index route creates, and the cookie `api_colorize` sets, appear only as the returned `sessionId` of `App.Server.ApiColorize`.
