/** The request handlers and helpers of app.py that change the registry and
    the upload directory, over an explicit state: the persisted registry
    document and the set of paths that exist on disk. The clock, the fresh
    identifiers, `secure_filename` and the colorization step come in as
    parameters. */
module App {
  import opened Wrappers
  import opened Paths
  import opened Validation
  import opened Registry
  import opened Sweep
  import opened Deletion

  /** `UPLOAD_FOLDER`: `os.path.join('static', 'uploads')`. */
  const UploadFolder: string := "static/uploads"

  /** The `image` field of a colorize request: absent, or a file with the
      name the client gave it. */
  datatype ImageField = NoImage | Image(filename: string)

  /** How the colorization step ended: a result was written, or it raised. */
  datatype ColorizeOutcome = Colorized | ColorizeFailed(message: string)

  /** The colorize endpoint's answers: the two image URLs and the session
      (200), a validation error (400) or the colorizer's error (500). */
  datatype ColorizeResponse =
    | Created(original: string, colorized: string, sessionId: string)
    | BadRequest(error: string)
    | ServerError(error: string)

  /** The JSON body of an explicit delete request: a `files` list, or anything else. */
  datatype CleanupRequest = FileList(paths: seq<string>) | Malformed

  /** The explicit delete endpoint's answers. */
  datatype CleanupResponse = Removed(filesRemoved: nat) | InvalidRequest(message: string)

  /** An upload that passes the three checks of the colorize endpoint. */
  predicate Accepted(upload: ImageField) {
    upload.Image? && upload.filename != "" && AllowedFile(upload.filename)
  }

  /** Where an upload is stored: `{id}{role}{ext}` in the upload folder, with
      `role` "_original" or "_colorized". A relative name lands under
      `static/uploads/`; an absolute one would replace the folder. */
  function StoredPath(uniqueId: string, role: string, ext: string): (r: string)
    ensures var name := uniqueId + role + ext;
            && (!IsAbsolute(name) ==> r == "static/uploads/" + name)
            && (IsAbsolute(name) ==> r == name)
  {
    Join(UploadFolder, uniqueId + role + ext)
  }

  /** The URL the endpoint returns for a stored file: `/static/uploads/`
      followed by one path component, the file's name. */
  function PublicUrl(path: string): (r: string)
    ensures |r| >= 16 && r[..16] == "/static/uploads/" && '/' !in r[16..]
    ensures r[16..] == Basename(path)
  {
    "/static/uploads/" + Basename(path)
  }

  /** The original and the colorized file of one upload are two different
      files, whatever the identifier and extension. */
  lemma PairPathsDistinct(uniqueId: string, ext: string)
    ensures StoredPath(uniqueId, "_original", ext) != StoredPath(uniqueId, "_colorized", ext)
  {
  }

  /** When identifier, role and extension hold no '/', the URL of the stored
      file is `/static/uploads/` followed by exactly the name built from
      them: the folder is dropped and nothing else is. */
  lemma PublicUrlOfStoredPath(uniqueId: string, role: string, ext: string)
    requires '/' !in uniqueId && '/' !in role && '/' !in ext
    ensures PublicUrl(StoredPath(uniqueId, role, ext)) == "/static/uploads/" + uniqueId + role + ext
  {
    var name := uniqueId + role + ext;
    NoSlashInConcat(uniqueId, role);
    NoSlashInConcat(uniqueId + role, ext);
    assert StoredPath(uniqueId, role, ext) == "static/uploads/" + name;
    BasenameAfterSlash("static/uploads/", name);
  }

  /** The two URLs of one upload: `/static/uploads/{id}_original{ext}` and
      `/static/uploads/{id}_colorized{ext}`, with the same identifier and
      extension, when neither holds a '/'. */
  lemma PairUrls(uniqueId: string, ext: string)
    requires '/' !in uniqueId && '/' !in ext
    ensures PublicUrl(StoredPath(uniqueId, "_original", ext)) == "/static/uploads/" + uniqueId + "_original" + ext
    ensures PublicUrl(StoredPath(uniqueId, "_colorized", ext)) == "/static/uploads/" + uniqueId + "_colorized" + ext
  {
    PublicUrlOfStoredPath(uniqueId, "_original", ext);
    PublicUrlOfStoredPath(uniqueId, "_colorized", ext);
  }

  /** For any uploaded name and an identifier without '/' (as a UUID's text
      is), the URLs of one upload carry the identifier and the extension
      `os.path.splitext` takes from the name. */
  lemma ColorizedPairUrls(uniqueId: string, name: string)
    requires '/' !in uniqueId
    ensures var ext := Extension(name);
            && PublicUrl(StoredPath(uniqueId, "_original", ext)) == "/static/uploads/" + uniqueId + "_original" + ext
            && PublicUrl(StoredPath(uniqueId, "_colorized", ext)) == "/static/uploads/" + uniqueId + "_colorized" + ext
  {
    PairUrls(uniqueId, Extension(name));
  }

  /** The application's mutable state: the registry document, the paths that
      exist on disk, the paths on which removal fails, and the application
      root (`app.root_path`). */
  class Server {
    var db: Stored
    var disk: set<string>
    const undeletable: set<string>
    const rootPath: string

    constructor (rootPath: string, db: Stored, disk: set<string>, undeletable: set<string>)
      ensures this.rootPath == rootPath && this.db == db && this.disk == disk && this.undeletable == undeletable
    {
      this.rootPath := rootPath;
      this.db := db;
      this.disk := disk;
      this.undeletable := undeletable;
    }

    /** The registry table as a load would read it now. */
    function Files(): seq<Record>
      reads this
    {
      Load(db)
    }

    /** `get_file_db`. */
    method GetFileDb() returns (files: seq<Record>)
      ensures files == Load(db)
    {
      files := Load(db);
    }

    /** `save_file_db`: the document is overwritten with the table. */
    method SaveFileDb(files: seq<Record>)
      modifies this`db
      ensures db == Saved(files) && Files() == files
    {
      db := Saved(files);
    }

    /** The guarded delete both sweeps use: a path that exists is removed,
        unless removing it raises, which is only logged. */
    method RemoveFile(path: string)
      modifies this`disk
      ensures disk == if path in undeletable then old(disk) else old(disk) - {path}
    {
      if path in disk {
        if path !in undeletable {
          disk := disk - {path};
        }
      }
    }

    /** `register_file`: one record for `path`, stamped `now` and owned by
        `sessionId`, is appended; the records already there are unchanged. */
    method RegisterFile(path: string, sessionId: string, now: int)
      modifies this`db
      ensures Files() == old(Files()) + [Record(path, now, sessionId)]
      ensures db.Saved?
    {
      var files := GetFileDb();
      files := files + [Record(path, now, sessionId)];
      SaveFileDb(files);
    }

    /** `cleanup_files`: every record more than the retention period old at
        `now` has its file deleted and is dropped from the table; the rest
        stay, in order. The document is rewritten only if something was
        dropped. */
    method CleanupFiles(now: int) returns (removed: seq<Record>)
      modifies this`db, this`disk
      ensures removed == Expired(old(Files()), now)
      ensures Files() == Kept(old(Files()), now)
      ensures disk == old(disk) - (PathsOf(removed) - undeletable)
      ensures removed == [] ==> db == old(db)
      ensures removed != [] ==> db == Saved(Kept(old(Files()), now))
    {
      var files := GetFileDb();
      removed := [];
      for i := 0 to |files|
        invariant removed == Expired(files[..i], now)
        invariant disk == old(disk) - (PathsOf(removed) - undeletable)
        invariant db == old(db)
      {
        var entry := files[i];
        assert files[..i + 1] == files[..i] + [entry];
        if IsExpired(entry, now) {
          RemoveFile(entry.path);
          PathsOfAppend(removed, entry);
          removed := removed + [entry];
        }
      }
      assert files[..|files|] == files;
      WithoutExpired(files, now);
      if removed != [] {
        SaveFileDb(Without(files, removed));
      } else {
        WithoutNothing(files);
      }
    }

    /** `cleanup_expired`: the on-demand sweep. When nothing has expired the
        document is left as it was, so calling it again at once is a no-op. */
    method CleanupExpired(now: int) returns (status: string)
      modifies this`db, this`disk
      ensures status == "Cleanup of expired files completed"
      ensures Files() == Kept(old(Files()), now)
      ensures disk == old(disk) - (PathsOf(Expired(old(Files()), now)) - undeletable)
      ensures Expired(old(Files()), now) == [] ==> db == old(db)
      ensures Expired(old(Files()), now) != [] ==> db == Saved(Kept(old(Files()), now))
    {
      var _ := CleanupFiles(now);
      status := "Cleanup of expired files completed";
    }

    /** Two sweeps at the same time: the second finds nothing to remove and
        leaves the document and the disk as the first left them. */
    method CleanupFilesTwice(now: int) returns (first: seq<Record>, second: seq<Record>)
      modifies this`db, this`disk
      ensures first == Expired(old(Files()), now) && second == []
      ensures Files() == Kept(old(Files()), now)
      ensures disk == old(disk) - (PathsOf(first) - undeletable)
      ensures first == [] ==> db == old(db)
      ensures first != [] ==> db == Saved(Kept(old(Files()), now))
    {
      first := CleanupFiles(now);
      SweepIdempotent(old(Files()), now);
      ghost var between, onDisk := db, disk;
      second := CleanupFiles(now);
      assert db == between && disk == onDisk;
    }

    /** The body of `cleanup_specific` once the request is parsed, for any
        match test: for each requested path in turn, every entry the path
        reaches has its file deleted and is marked; marked entries are
        dropped from the table, which is rewritten only if something was
        marked. */
    method RemoveRequested(paths: seq<string>, rule: Rule) returns (removed: seq<Record>)
      modifies this`db, this`disk
      ensures removed == Matched(paths, old(Files()), rule)
      ensures Files() == Unselected(old(Files()), paths, rule)
      ensures disk == old(disk) - (PathsOf(removed) - undeletable)
      ensures removed == [] ==> db == old(db)
      ensures removed != [] ==> db == Saved(Unselected(old(Files()), paths, rule))
    {
      var files := GetFileDb();
      removed := [];
      for i := 0 to |paths|
        invariant removed == Matched(paths[..i], files, rule)
        invariant disk == old(disk) - (PathsOf(removed) - undeletable)
        invariant db == old(db)
      {
        var filePath := paths[i];
        for j := 0 to |files|
          invariant removed == Matched(paths[..i], files, rule) + Hits(files[..j], filePath, rule)
          invariant disk == old(disk) - (PathsOf(removed) - undeletable)
          invariant db == old(db)
        {
          var entry := files[j];
          assert files[..j + 1] == files[..j] + [entry];
          if rule(entry, filePath) {
            RemoveFile(entry.path);
            PathsOfAppend(removed, entry);
            removed := removed + [entry];
          }
        }
        assert files[..|files|] == files;
        assert paths[..i + 1] == paths[..i] + [filePath];
      }
      assert paths[..|paths|] == paths;
      WithoutMatchedIsUnselected(paths, files, rule);
      if removed != [] {
        SaveFileDb(Without(files, removed));
      } else {
        WithoutNothing(files);
      }
    }

    /** `cleanup_specific`: the caller's session is the cookie's, or the empty
        string when there is none; a request without a `files` list changes
        nothing; otherwise the entries of that session the requested paths
        reach (`Matches`) are removed and the number of marks is returned. */
    method CleanupSpecific(request: CleanupRequest, cookie: Option<string>) returns (response: CleanupResponse)
      modifies this`db, this`disk
      ensures request.Malformed? ==>
                response == InvalidRequest("Invalid request format") && db == old(db) && disk == old(disk)
      ensures request.FileList? ==>
                var rule := MatchRule(cookie.GetOr(""), rootPath);
                var marked := Matched(request.paths, old(Files()), rule);
                && response == Removed(|marked|)
                && Files() == Unselected(old(Files()), request.paths, rule)
                && disk == old(disk) - (PathsOf(marked) - undeletable)
                && (marked == [] ==> db == old(db))
                && (marked != [] ==> db == Saved(Unselected(old(Files()), request.paths, rule)))
    {
      var sessionId := cookie.GetOr("");
      if request.Malformed? {
        return InvalidRequest("Invalid request format");
      }
      var removed := RemoveRequested(request.paths, MatchRule(sessionId, rootPath));
      response := Removed(|removed|);
    }

    /** `file.save(path)` followed by `register_file(path, sessionId)`: the
        file exists and one record for it is appended. */
    method StoreUpload(path: string, sessionId: string, now: int)
      modifies this`db, this`disk
      ensures Files() == old(Files()) + [Record(path, now, sessionId)]
      ensures disk == old(disk) + {path}
    {
      disk := disk + {path};
      RegisterFile(path, sessionId, now);
    }

    /** `api_colorize`: the session cookie is the caller's or a fresh one. An
        upload that is missing, unnamed or of a refused type is answered 400
        before anything is written. Otherwise the original is saved and
        registered, then colorized; on success the result is saved and
        registered too and both URLs are returned, on failure only the
        original remains, registered, and the error is returned. */
    method ApiColorize(upload: ImageField, cookie: Option<string>, freshSessionId: string, uniqueId: string,
                       secureFilename: string -> string, outcome: ColorizeOutcome,
                       originalTime: int, colorizedTime: int)
      returns (response: ColorizeResponse, sessionId: string)
      modifies this`db, this`disk
      ensures sessionId == cookie.GetOr(freshSessionId)
      ensures !Accepted(upload) ==> db == old(db) && disk == old(disk)
      ensures upload.NoImage? ==> response == BadRequest("No image provided")
      ensures upload.Image? && upload.filename == "" ==> response == BadRequest("No image selected")
      ensures upload.Image? && upload.filename != "" && !AllowedFile(upload.filename) ==>
                response == BadRequest("File type not allowed")
      ensures Accepted(upload) && outcome.Colorized? ==>
                var ext := Extension(secureFilename(upload.filename));
                var original := StoredPath(uniqueId, "_original", ext);
                var colorized := StoredPath(uniqueId, "_colorized", ext);
                && Files() == old(Files()) + [Record(original, originalTime, sessionId)]
                                           + [Record(colorized, colorizedTime, sessionId)]
                && disk == old(disk) + {original} + {colorized}
                && response == Created(PublicUrl(original), PublicUrl(colorized), sessionId)
      ensures Accepted(upload) && outcome.ColorizeFailed? ==>
                var original := StoredPath(uniqueId, "_original", Extension(secureFilename(upload.filename)));
                && Files() == old(Files()) + [Record(original, originalTime, sessionId)]
                && disk == old(disk) + {original}
                && response == ServerError(outcome.message)
    {
      sessionId := cookie.GetOr(freshSessionId);
      if upload.NoImage? {
        return BadRequest("No image provided"), sessionId;
      }
      if upload.filename == "" {
        return BadRequest("No image selected"), sessionId;
      }
      if !AllowedFile(upload.filename) {
        return BadRequest("File type not allowed"), sessionId;
      }
      var ext := Extension(secureFilename(upload.filename));
      var originalPath := StoredPath(uniqueId, "_original", ext);
      var colorizedPath := StoredPath(uniqueId, "_colorized", ext);
      StoreUpload(originalPath, sessionId, originalTime);
      match outcome
      case ColorizeFailed(message) =>
        response := ServerError(message);
      case Colorized =>
        StoreUpload(colorizedPath, sessionId, colorizedTime);
        response := Created(PublicUrl(originalPath), PublicUrl(colorizedPath), sessionId);
    }
  }
}
