/** The storage directory as the state of the running application, and the
    routes of app.py that read or change it. Each route that changes the
    directory is a method proved to leave it as the matching function of
    the Uploads or Routes module says. */
module FileStore {
  import opened FileNames
  import opened Replies
  import opened Utf8
  import opened Storage
  import opened AccessGate
  import opened Uploads
  import opened Routes

  class Store {
    /** The regular files under UPLOAD_DIR. */
    var files: Dir
    /** API_KEY (app.py:17), "" when the variable is unset. */
    const apiKey: string
    /** werkzeug's safe_join(UPLOAD_DIR, name), as a path relative to
        UPLOAD_DIR, or None when it refuses the name. */
    const join: string -> Option<string>
    /** werkzeug's secure_filename. */
    const sanitize: string -> string

    /** The directory holds only plain entry names, and secure_filename
        never answers a name with a separator. */
    ghost predicate Valid()
      reads this
    {
      WellFormed(files) && SanitizerSafe(sanitize)
    }

    /** The application at start-up, over whatever UPLOAD_DIR already
        holds. */
    constructor (initial: Dir, apiKey: string, join: string -> Option<string>, sanitize: string -> string)
      requires WellFormed(initial) && SanitizerSafe(sanitize)
      ensures Valid()
      ensures files == initial && this.apiKey == apiKey && this.join == join && this.sanitize == sanitize
    {
      files := initial;
      this.apiKey := apiKey;
      this.join := join;
      this.sanitize := sanitize;
    }

    // -------------------------------------------------------------------
    // Uploads
    // -------------------------------------------------------------------

    /** The probe loop of both upload routes (app.py:402-409,
        app.py:524-529): start from the sanitised name and, while something
        exists under the current name, try f"{base}_{i}{ext}" for
        i = 1, 2, ... */
    method FreeName(baseName: string) returns (dest: string)
      ensures dest == Allocation(files, baseName)
    {
      var (base, ext) := SplitExt(baseName);
      dest := baseName;
      var i := 1;
      LeastFreeExists(files, baseName);
      ghost var stop :| 1 <= stop <= |files| + 1 && LeastFree(files, baseName, stop);
      while Exists(files, dest)
        invariant 1 <= i <= stop + 1
        invariant dest == if i == 1 then baseName else Candidate(baseName, i - 1)
        invariant i > 1 ==> Exists(files, baseName)
        invariant forall j :: 1 <= j < i - 1 ==> Exists(files, Candidate(baseName, j))
        decreases stop + 1 - i
      {
        assert i <= stop by {
          if i > 1 {
            assert Exists(files, Candidate(baseName, i - 1));
          }
        }
        var candidate := base + "_" + Decimal(i) + ext;
        dest := candidate;
        i := i + 1;
      }
      if i > 1 {
        assert LeastFree(files, baseName, i - 1);
      }
      AllocationUnique(files, baseName, dest, Allocation(files, baseName));
    }

    /** The body of both upload loops: each accepted part is saved under
        its allocated name, and the names are collected in `saved`. */
    method SaveParts(parts: seq<Part>, checkAllowed: bool) returns (saved: seq<string>)
      requires Valid()
      modifies this
      ensures Valid()
      ensures (files, saved) == UploadAll(old(files), parts, sanitize, checkAllowed)
    {
      saved := [];
      var k := 0;
      while k < |parts|
        invariant 0 <= k <= |parts|
        invariant Valid()
        invariant (files, saved) == UploadAll(old(files), parts[..k], sanitize, checkAllowed)
      {
        var f := parts[k];
        assert parts[..k + 1][..k] == parts[..k];
        if f.filename != "" && (!checkAllowed || IsAllowed(f.filename)) {
          var baseName := sanitize(f.filename);
          assert !HasSeparator(baseName) && '\0' !in baseName;
          var dest := FreeName(baseName);
          AllocationIsFreeEntry(files, baseName);
          files := files[dest := f.content];
          saved := saved + [dest];
        }
        k := k + 1;
      }
      assert parts[..|parts|] == parts;
    }

    /** upload_inline (app.py:390-421): a request without "files" parts is
        refused; otherwise every part with a file name that is_allowed
        accepts is saved. An empty `saved` list is the "no valid file"
        message. */
    method UploadInline(parts: seq<Part>) returns (r: Result<seq<string>>)
      requires Valid()
      modifies this
      ensures Valid()
      ensures parts == [] ==> r == Err(NoFiles) && files == old(files)
      ensures parts != [] ==> r.Ok? && (files, r.value) == UploadAll(old(files), parts, sanitize, true)
    {
      if |parts| == 0 {
        return Err(NoFiles);
      }
      var saved := SaveParts(parts, true);
      r := Ok(saved);
    }

    /** api_files_upload (app.py:515-531): the key check, then as the page
        route but without is_allowed; it answers the saved names. */
    method ApiUpload(header: Option<string>, parts: seq<Part>) returns (r: Result<seq<string>>)
      requires Valid()
      modifies this
      ensures Valid()
      ensures RequireApiKey(apiKey, header).Some? ==> r == Err(Unauthorized) && files == old(files)
      ensures RequireApiKey(apiKey, header).None? && parts == [] ==> r == Err(NoFiles) && files == old(files)
      ensures RequireApiKey(apiKey, header).None? && parts != [] ==>
                r.Ok? && (files, r.value) == UploadAll(old(files), parts, sanitize, false)
    {
      var auth := RequireApiKey(apiKey, header);
      if auth.Some? {
        return Err(auth.value);
      }
      if |parts| == 0 {
        return Err(NoFiles);
      }
      var saved := SaveParts(parts, false);
      r := Ok(saved);
    }

    // -------------------------------------------------------------------
    // Reading
    // -------------------------------------------------------------------

    /** download and view (app.py:424-430). */
    function Download(name: string): (r: Result<Bytes>)
      reads this
      ensures r.Ok? <==> join(name).Some? && join(name).value in files
      ensures r.Ok? ==> r.value == files[join(name).value]
    {
      Fetch(files, join(name))
    }

    /** edit, GET (app.py:433-437, 443-449). */
    function EditForm(name: string): (r: Result<string>)
      reads this
      ensures r.Ok? ==> Resolve(files, join(name)).Ok?
      ensures r.Ok? ==> IsEditable(files, Resolve(files, join(name)).value)
      ensures r.Ok? ==> ReadText(files[Resolve(files, join(name)).value]) == Some(r.value)
      ensures r == EditPage(files, join(name))
    {
      EditPage(files, join(name))
    }

    /** api_files_list (app.py:507-512). */
    function ApiList(header: Option<string>): (r: Result<seq<FileInfo>>)
      reads this
      ensures r.Err? <==> RequireApiKey(apiKey, header).Some?
      ensures r.Err? ==> r.failure == Unauthorized
      ensures r.Ok? ==> |r.value| == |files| && forall i :: 0 <= i < |r.value| ==> r.value[i].name in files
      ensures r.Ok? ==> r.value == ListOutcome(files)
    {
      var auth := RequireApiKey(apiKey, header);
      if auth.Some? then Err(auth.value) else Ok(ListOutcome(files))
    }

    // -------------------------------------------------------------------
    // Edit and replace
    // -------------------------------------------------------------------

    /** edit, POST (app.py:433-442). */
    method Edit(name: string, content: string) returns (r: Result<()>)
      requires Valid()
      modifies this
      ensures Valid()
      ensures (r, files) == EditOutcome(old(files), join(name), content)
    {
      var resolved := Resolve(files, join(name));
      if resolved.Err? {
        return Err(resolved.failure);
      }
      var path := resolved.value;
      if !IsEditable(files, path) {
        return Err(NotEditable);
      }
      files := files[path := Encode(content)];
      r := Ok(());
    }

    /** replace, POST (app.py:451-458). */
    method Replace(name: string, upload: Option<(string, Bytes)>) returns (r: Result<()>)
      requires Valid()
      modifies this
      ensures Valid()
      ensures (r, files) == ReplaceOutcome(old(files), join(name), upload)
    {
      var resolved := Resolve(files, join(name));
      if resolved.Err? {
        return Err(resolved.failure);
      }
      var path := resolved.value;
      if upload.None? || upload.value.0 == "" {
        return Err(NoFileChosen);
      }
      files := files[path := upload.value.1];
      r := Ok(());
    }

    // -------------------------------------------------------------------
    // Rename
    // -------------------------------------------------------------------

    /** rename (app.py:462-473). */
    method Rename(name: string, field: Option<string>) returns (r: Result<()>)
      requires Valid()
      modifies this
      ensures Valid()
      ensures (r, files) == RenameOutcome(old(files), join(name), field)
    {
      var resolved := Resolve(files, join(name));
      if resolved.Err? {
        return Err(resolved.failure);
      }
      var src := resolved.value;
      var newName := NewName(field);
      if newName == "" || '/' in newName || '\\' in newName {
        return Err(InvalidNewName);
      }
      if Exists(files, newName) {
        return Err(NameExists);
      }
      if '\0' in newName {
        return Err(ServerError);
      }
      ValidFreeNameIsEntry(files, newName);
      files := Renamed(files, src, newName);
      r := Ok(());
    }

    /** api_files_rename (app.py:543-556). */
    method ApiRename(header: Option<string>, name: string, field: Option<string>) returns (r: Result<string>)
      requires Valid()
      modifies this
      ensures Valid()
      ensures RequireApiKey(apiKey, header).Some? ==> r == Err(Unauthorized) && files == old(files)
      ensures RequireApiKey(apiKey, header).None? ==> (r, files) == ApiRenameOutcome(old(files), join(name), field)
    {
      var auth := RequireApiKey(apiKey, header);
      if auth.Some? {
        return Err(auth.value);
      }
      var newName := NewName(field);
      if newName == "" || '/' in newName || '\\' in newName {
        return Err(InvalidNewName);
      }
      var resolved := Resolve(files, join(name));
      if resolved.Err? {
        return Err(resolved.failure);
      }
      var src := resolved.value;
      if Exists(files, newName) {
        return Err(NameExists);
      }
      if '\0' in newName {
        return Err(ServerError);
      }
      ValidFreeNameIsEntry(files, newName);
      files := Renamed(files, src, newName);
      r := Ok(newName);
    }

    // -------------------------------------------------------------------
    // Delete
    // -------------------------------------------------------------------

    /** delete (app.py:475-484). */
    method Delete(name: string) returns (r: Result<()>)
      requires Valid()
      modifies this
      ensures Valid()
      ensures (r, files) == DeleteOutcome(old(files), join(name))
    {
      var resolved := Resolve(files, join(name));
      if resolved.Err? {
        return Err(NotFound);
      }
      files := files - {resolved.value};
      r := Ok(());
    }

    /** api_files_delete (app.py:533-541). */
    method ApiDelete(header: Option<string>, name: string) returns (r: Result<()>)
      requires Valid()
      modifies this
      ensures Valid()
      ensures RequireApiKey(apiKey, header).Some? ==> r == Err(Unauthorized) && files == old(files)
      ensures RequireApiKey(apiKey, header).None? ==> (r, files) == DeleteOutcome(old(files), join(name))
    {
      var auth := RequireApiKey(apiKey, header);
      if auth.Some? {
        return Err(auth.value);
      }
      r := Delete(name);
    }
  }
}
