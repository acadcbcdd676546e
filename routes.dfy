/** The routes that act on one stored file, as functions from the directory
    before the request to the answer and the directory after it: edit,
    replace, rename, delete and their JSON twins, and the JSON listing.
    `joined` is always what safe_join answered for the name in the URL. */
module Routes {
  import opened FileNames
  import opened Replies
  import opened Utf8
  import opened Storage
  import opened Listing

  // ---------------------------------------------------------------------
  // edit and replace
  // ---------------------------------------------------------------------

  /** edit, POST (app.py:433-442): after existing_file_path, a file that is
      not editable is left alone; an editable one gets the UTF-8 encoding of
      the submitted text. The new text may be longer than MAX_EDIT_BYTES:
      only the file as it was is checked. */
  function EditOutcome(dir: Dir, joined: Option<string>, content: string): (r: (Result<()>, Dir))
    ensures r.0.Ok? <==> Resolve(dir, joined).Ok? && IsEditable(dir, Resolve(dir, joined).value)
    ensures r.0.Ok? ==>
              var n := Resolve(dir, joined).value;
              r.1.Keys == dir.Keys && r.1[n] == Encode(content) &&
              forall m :: m in dir && m != n ==> r.1[m] == dir[m]
    ensures r.0.Err? ==> r.1 == dir && r.0.failure in {BadRequest, NotFound, NotEditable}
  {
    match Resolve(dir, joined)
    case Err(e) => (Err(e), dir)
    case Ok(n) =>
      if !IsEditable(dir, n) then (Err(NotEditable), dir)
      else (Ok(()), dir[n := Encode(content)])
  }

  /** edit, GET (app.py:433-437, 443-449): the text the edit page shows,
      refused for a file that is not editable or not UTF-8. */
  function EditPage(dir: Dir, joined: Option<string>): (r: Result<string>)
    ensures r.Ok? ==> Resolve(dir, joined).Ok? && IsEditable(dir, Resolve(dir, joined).value)
    ensures r.Ok? ==> ReadText(dir[Resolve(dir, joined).value]) == Some(r.value) && '\r' !in r.value
    ensures r.Err? ==> r.failure in {BadRequest, NotFound, NotEditable, BadEncoding}
    ensures Resolve(dir, joined).Err? ==> r == Err(Resolve(dir, joined).failure)
    ensures Resolve(dir, joined).Ok? ==>
              var n := Resolve(dir, joined).value;
              (!IsEditable(dir, n) ==> r == Err(NotEditable)) &&
              (IsEditable(dir, n) && ReadText(dir[n]).None? ==> r == Err(BadEncoding)) &&
              (IsEditable(dir, n) && ReadText(dir[n]).Some? ==> r.Ok?)
  {
    match Resolve(dir, joined)
    case Err(e) => Err(e)
    case Ok(n) =>
      if !IsEditable(dir, n) then Err(NotEditable)
      else
        match ReadText(dir[n])
        case None => Err(BadEncoding)
        case Some(text) => Ok(text)
  }

  /** Saving a text on the edit page and opening the page again shows the
      text with its line ends normalised (exactly the text when it has no
      "\r"), as long as its encoding still fits MAX_EDIT_BYTES. */
  lemma EditThenReopen(dir: Dir, joined: Option<string>, content: string)
    requires EditOutcome(dir, joined, content).0.Ok?
    requires |Encode(content)| <= MaxEditBytes
    ensures EditPage(EditOutcome(dir, joined, content).1, joined) == Ok(TranslateNewlines(content))
    ensures '\r' !in content ==> EditPage(EditOutcome(dir, joined, content).1, joined) == Ok(content)
  {
    var n := Resolve(dir, joined).value;
    var d := EditOutcome(dir, joined, content).1;
    assert Resolve(d, joined) == Ok(n);
    ReadWrittenText(content);
  }

  /** A text whose encoding is larger than MAX_EDIT_BYTES is still saved,
      and then the file is no longer editable. */
  lemma EditCanOutgrowLimit(dir: Dir, joined: Option<string>, content: string)
    requires EditOutcome(dir, joined, content).0.Ok?
    requires |Encode(content)| > MaxEditBytes
    ensures EditPage(EditOutcome(dir, joined, content).1, joined) == Err(NotEditable)
  {
    var d := EditOutcome(dir, joined, content).1;
    assert Resolve(d, joined) == Resolve(dir, joined);
  }

  /** replace, POST (app.py:451-458): after existing_file_path, a request
      without a "file" part, or with one whose file name is empty, changes
      nothing; otherwise the part's bytes overwrite the file. `upload` is
      the (file name, bytes) of the "file" part, None when there is none. */
  function ReplaceOutcome(dir: Dir, joined: Option<string>, upload: Option<(string, Bytes)>): (r: (Result<()>, Dir))
    ensures r.1.Keys == dir.Keys
    ensures r.0.Ok? <==> Resolve(dir, joined).Ok? && upload.Some? && upload.value.0 != ""
    ensures r.0.Ok? ==>
              var n := Resolve(dir, joined).value;
              r.1[n] == upload.value.1 && forall m :: m in dir && m != n ==> r.1[m] == dir[m]
    ensures r.0.Err? ==> r.1 == dir && r.0.failure in {BadRequest, NotFound, NoFileChosen}
  {
    match Resolve(dir, joined)
    case Err(e) => (Err(e), dir)
    case Ok(n) =>
      if upload.None? || upload.value.0 == "" then (Err(NoFileChosen), dir)
      else (Ok(()), dir[n := upload.value.1])
  }

  /** Replacing changes the stored total by the change in the file's size. */
  lemma ReplaceTotal(dir: Dir, joined: Option<string>, upload: Option<(string, Bytes)>)
    requires ReplaceOutcome(dir, joined, upload).0.Ok?
    ensures var n := Resolve(dir, joined).value;
            TotalBytes(ReplaceOutcome(dir, joined, upload).1) == TotalBytes(dir) - |dir[n]| + |upload.value.1|
  {
    var n := Resolve(dir, joined).value;
    TotalBytesOverwrite(dir, n, upload.value.1);
  }

  // ---------------------------------------------------------------------
  // rename
  // ---------------------------------------------------------------------

  /** What src.rename(dst) does when nothing exists under `dst`: the bytes
      move to the new name and every other file stays as it was. */
  function Renamed(dir: Dir, src: string, dst: string): (d: Dir)
    requires src in dir
    ensures dst !in dir ==> |d| == |dir| && dst in d && src !in d && d[dst] == dir[src]
    ensures forall n :: n != src && n != dst ==> (n in d <==> n in dir)
    ensures forall n :: n in dir && n != src && n != dst ==> d[n] == dir[n]
  {
    var d := (dir - {src})[dst := dir[src]];
    assert dst !in dir ==> d.Keys == dir.Keys - {src} + {dst};
    d
  }

  /** Renaming back restores the directory. */
  lemma RenameBack(dir: Dir, src: string, dst: string)
    requires src in dir && dst !in dir
    ensures Renamed(Renamed(dir, src, dst), dst, src) == dir
  {
    var back := Renamed(Renamed(dir, src, dst), dst, src);
    assert back.Keys == dir.Keys;
  }

  /** Renaming keeps the stored total. */
  lemma RenameTotal(dir: Dir, src: string, dst: string)
    requires src in dir && dst !in dir
    ensures TotalBytes(Renamed(dir, src, dst)) == TotalBytes(dir)
  {
    var d := Renamed(dir, src, dst);
    TotalBytesWithout(d, dst);
    TotalBytesWithout(dir, src);
    assert d - {dst} == dir - {src};
  }

  /** The new name as the routes read it: a missing field counts as "", and
      blanks around it are dropped (app.py:465, app.py:548). */
  function NewName(field: Option<string>): string {
    match field
    case None => ""
    case Some(s) => Strip(s)
  }

  /** The check on the new name: not empty, and neither '/' nor '\'. */
  predicate ValidNewName(n: string) {
    n != "" && !HasSeparator(n)
  }

  /** A valid new name without NUL that nothing exists under is a name a
      directory can hold. */
  lemma ValidFreeNameIsEntry(dir: Dir, n: string)
    requires ValidNewName(n) && '\0' !in n && !Exists(dir, n)
    ensures EntryName(n) && n !in dir
  {
  }

  /** rename (app.py:462-473): existing_file_path first, then the check on
      the new name, then the check that nothing exists under it. A new name
      holding NUL passes those checks, and src.rename then raises. */
  function RenameOutcome(dir: Dir, joined: Option<string>, field: Option<string>): (r: (Result<()>, Dir))
    ensures r.0.Ok? <==> Resolve(dir, joined).Ok? && ValidNewName(NewName(field)) && !Exists(dir, NewName(field)) &&
                         '\0' !in NewName(field)
    ensures r.0.Ok? ==> r.1 == Renamed(dir, Resolve(dir, joined).value, NewName(field))
    ensures r.0.Err? ==> r.1 == dir
    ensures r.0.Err? ==>
              r.0.failure == (if Resolve(dir, joined).Err? then Resolve(dir, joined).failure
                              else if !ValidNewName(NewName(field)) then InvalidNewName
                              else if Exists(dir, NewName(field)) then NameExists
                              else ServerError)
  {
    match Resolve(dir, joined)
    case Err(e) => (Err(e), dir)
    case Ok(src) =>
      var dst := NewName(field);
      if !ValidNewName(dst) then (Err(InvalidNewName), dir)
      else if Exists(dir, dst) then (Err(NameExists), dir)
      else if '\0' in dst then (Err(ServerError), dir)
      else (Ok(()), Renamed(dir, src, dst))
  }

  /** api_files_rename after the key check (app.py:546-556): the check on
      the new name comes first, then existing_file_path, then the check
      that nothing exists under the new name. It answers the new name. */
  function ApiRenameOutcome(dir: Dir, joined: Option<string>, field: Option<string>): (r: (Result<string>, Dir))
    ensures r.0.Ok? <==> Resolve(dir, joined).Ok? && ValidNewName(NewName(field)) && !Exists(dir, NewName(field)) &&
                         '\0' !in NewName(field)
    ensures r.0.Ok? ==> r.0.value == NewName(field) && r.1 == Renamed(dir, Resolve(dir, joined).value, NewName(field))
    ensures r.0.Err? ==> r.1 == dir
    ensures r.0.Err? ==>
              r.0.failure == (if !ValidNewName(NewName(field)) then InvalidNewName
                              else if Resolve(dir, joined).Err? then Resolve(dir, joined).failure
                              else if Exists(dir, NewName(field)) then NameExists
                              else ServerError)
  {
    var dst := NewName(field);
    if !ValidNewName(dst) then (Err(InvalidNewName), dir)
    else
      match Resolve(dir, joined)
      case Err(e) => (Err(e), dir)
      case Ok(src) =>
        if Exists(dir, dst) then (Err(NameExists), dir)
        else if '\0' in dst then (Err(ServerError), dir)
        else (Ok(dst), Renamed(dir, src, dst))
  }

  /** The two rename routes change the directory in the same way; they
      report different failures exactly when the name in the URL is not a
      stored file and the new name is invalid as well. */
  lemma RenameRoutesAgree(dir: Dir, joined: Option<string>, field: Option<string>)
    ensures RenameOutcome(dir, joined, field).1 == ApiRenameOutcome(dir, joined, field).1
    ensures RenameOutcome(dir, joined, field).0.Ok? <==> ApiRenameOutcome(dir, joined, field).0.Ok?
    ensures Resolve(dir, joined).Err? && !ValidNewName(NewName(field)) ==>
              RenameOutcome(dir, joined, field).0 == Err(Resolve(dir, joined).failure) &&
              ApiRenameOutcome(dir, joined, field).0 == Err(InvalidNewName)
    ensures !(Resolve(dir, joined).Err? && !ValidNewName(NewName(field))) &&
            RenameOutcome(dir, joined, field).0.Err? ==>
              ApiRenameOutcome(dir, joined, field).0 == Err(RenameOutcome(dir, joined, field).0.failure)
  {
  }

  /** Renaming a file to its own name, or to a name with blanks around it,
      fails because the target exists. */
  lemma RenameToItself(dir: Dir, joined: Option<string>, field: Option<string>)
    requires Resolve(dir, joined).Ok? && NewName(field) == Resolve(dir, joined).value
    requires ValidNewName(NewName(field))
    ensures RenameOutcome(dir, joined, field) == (Err(NameExists), dir)
    ensures ApiRenameOutcome(dir, joined, field) == (Err(NameExists), dir)
  {
  }

  /** A new name holding NUL, such as "a\0b", passes both checks, since
      Path.exists() answers False for it; src.rename then raises, so both
      routes fail with a server error and nothing is renamed. */
  lemma RenameWithNulFails(dir: Dir, joined: Option<string>, field: Option<string>)
    requires WellFormed(dir) && Resolve(dir, joined).Ok?
    requires ValidNewName(NewName(field)) && '\0' in NewName(field)
    ensures RenameOutcome(dir, joined, field) == (Err(ServerError), dir)
    ensures ApiRenameOutcome(dir, joined, field) == (Err(ServerError), dir)
  {
    assert !Exists(dir, NewName(field));
  }

  // ---------------------------------------------------------------------
  // delete
  // ---------------------------------------------------------------------

  /** delete (app.py:475-484) and api_files_delete after the key check
      (app.py:533-541): a failure of existing_file_path, 400 or 404, is
      reported as "not found"; otherwise exactly that file goes. */
  function DeleteOutcome(dir: Dir, joined: Option<string>): (r: (Result<()>, Dir))
    ensures r.0.Ok? <==> Resolve(dir, joined).Ok?
    ensures r.0.Ok? ==>
              var n := Resolve(dir, joined).value;
              |r.1| == |dir| - 1 && n !in r.1 &&
              forall m :: m != n ==> (m in r.1 <==> m in dir) && (m in r.1 ==> r.1[m] == dir[m])
    ensures r.0.Err? ==> r.0.failure == NotFound && r.1 == dir
  {
    match Resolve(dir, joined)
    case Err(_) => (Err(NotFound), dir)
    case Ok(n) =>
      var d := dir - {n};
      assert d.Keys == dir.Keys - {n};
      (Ok(()), d)
  }

  /** Deleting the same name twice: the first succeeds, the second reports
      "not found" and changes nothing. */
  lemma DeleteTwice(dir: Dir, joined: Option<string>)
    requires DeleteOutcome(dir, joined).0.Ok?
    ensures var d := DeleteOutcome(dir, joined).1;
            DeleteOutcome(d, joined) == (Err(NotFound), d)
  {
  }

  /** Deleting takes the file's size off the stored total. */
  lemma DeleteTotal(dir: Dir, joined: Option<string>)
    requires DeleteOutcome(dir, joined).0.Ok?
    ensures var n := Resolve(dir, joined).value;
            TotalBytes(DeleteOutcome(dir, joined).1) == TotalBytes(dir) - |dir[n]|
  {
    TotalBytesWithout(dir, Resolve(dir, joined).value);
  }

  // ---------------------------------------------------------------------
  // The JSON listing
  // ---------------------------------------------------------------------

  /** The parts of _file_info (app.py:496-505) this model keeps. */
  datatype FileInfo = FileInfo(name: string, size: nat, editable: bool)

  /** The entry for the stored file `n`. */
  function Info(dir: Dir, n: string): FileInfo
    requires n in dir
  {
    FileInfo(n, |dir[n]|, IsEditable(dir, n))
  }

  /** api_files_list after the key check (app.py:507-512): one entry per
      name of list_files, in that order, each with that file's size and
      editability. */
  function ListOutcome(dir: Dir): (r: seq<FileInfo>)
    ensures |r| == |dir|
    ensures forall i :: 0 <= i < |r| ==> r[i].name == ListFiles(dir)[i] && r[i].name in dir
    ensures forall i :: 0 <= i < |r| ==>
              r[i].size == |dir[r[i].name]| && r[i].editable == IsEditable(dir, r[i].name)
  {
    var names := ListFiles(dir);
    seq(|names|, i requires 0 <= i < |names| => Info(dir, names[i]))
  }
}
